/**
 * `Compiler` and the handlers of `CompileUtil`: the depth-first walk over the page below
 * the root element, the dispatch of each `v-` attribute of an element, the compilation of
 * the placeholders of a text node, and what each handler does: the first render into the
 * node, the watchers it creates, and the listeners it adds.
 *
 * The store does not change while the page is compiled (no handler writes the data), so
 * every read sees the store `new Observer` left, and a watcher created early never fires
 * during the walk.
 */
module Compiler {
  import opened Wrappers
  import opened Strings
  import opened Interpolation
  import opened Dom
  import opened Directives
  import opened Reactivity
  import Updater

  // ---------------------------------------------------------------------------------------
  // What a handler does
  // ---------------------------------------------------------------------------------------

  /** The watchers `CompileUtil[method](vm, node, e, type)` creates, in order, as their
      expressions and views: one per placeholder for a text with placeholders, each of which
      recomputes the whole text; one for any other text, bind, html and model; none for `on`. */
  function Watches(d: Directive, node: Node, e: string): seq<(string, View)>
  {
    match d
    case Text =>
      if Test(e) then
        var es := Holes(Scan(e));
        seq(|es|, i requires 0 <= i < |es| => (es[i], ContentView(node, e)))
      else [(e, TextView(node))]
    case Bind(attr) => [(e, BindView(node, attr))]
    case Html => [(e, HtmlView(node))]
    case Model => [(e, ModelView(node))]
    case On(_) => []
    case Inherited => []
  }

  /** The node after the handler's first render and listeners, `None` when a read or the
      `setAttribute` of a `v-bind` throws. */
  function Render(st: Store, methods: set<string>, d: Directive, e: string, s: NodeState): Option<NodeState>
  {
    match d
    case Text =>
      if Test(e) then
        (match ContentValue(st, e) case None => None case Some(t) => Some(Apply(s, TextContent(t))))
      else
        (match GetValue(st, e) case None => None case Some(v) => Some(Apply(s, TextContent(TextString(v)))))
    case Bind(attr) =>
      (match GetValue(st, e)
       case None => None
       case Some(v) => if ValidAttrName(attr) then Some(Apply(s, Attribute(attr, Show(v)))) else None)
    case Html =>
      (match GetValue(st, e) case None => None case Some(v) => Some(Apply(s, InnerHtml(Show(v)))))
    case Model =>
      (match GetValue(st, e)
       case None => None
       case Some(v) => Some(Apply(s, InputValue(Show(v))).(listeners := s.listeners + [Listener("input", WriteBack(e))])))
    case On(event) =>
      Some(if e in methods then s.(listeners := s.listeners + [Listener(event, CallMethod(e))]) else s)
    case Inherited => Some(s)
  }

  /** The watchers `CompileUtil[method](vm, node, e, type)` has created when it returns or
      throws, each read being done before its watcher is created (see `HandleText`). With
      placeholders, there is one for each placeholder before the first whose read throws. A
      `bind`, `html` or `model`, or a text without placeholders, has one when its read
      succeeds, for `bind` also when `setAttribute` then throws. `on` creates none. */
  function Made(st: Store, d: Directive, node: Node, e: string): seq<(string, View)>
  {
    match d
    case Text =>
      if Test(e) then
        var es := Holes(Scan(e));
        var n := ReadsBefore(st, es);
        seq(n, i requires 0 <= i < n => (es[i], ContentView(node, e)))
      else if GetValue(st, e).Some? then [(e, TextView(node))] else []
    case Bind(attr) => if GetValue(st, e).Some? then [(e, BindView(node, attr))] else []
    case Html => if GetValue(st, e).Some? then [(e, HtmlView(node))] else []
    case Model => if GetValue(st, e).Some? then [(e, ModelView(node))] else []
    case On(_) => []
    case Inherited => []
  }

  /** A handler that returns has created every watcher it lists. */
  lemma MadeOnSuccess(st: Store, methods: set<string>, d: Directive, node: Node, e: string, s: NodeState)
    requires Render(st, methods, d, e, s).Some?
    ensures Made(st, d, node, e) == Watches(d, node, e)
  {
    if d.Text? && Test(e) {
      var es := Holes(Scan(e));
      ReadsBeforeAll(st, es);
    }
  }

  /** What the watchers `ws` are made of. */
  function Specs(ws: seq<Watcher>): seq<(string, View)>
  {
    seq(|ws|, i requires 0 <= i < |ws| => (ws[i].expression, ws[i].view))
  }

  lemma SpecsAppend(a: seq<Watcher>, b: seq<Watcher>)
    ensures Specs(a + b) == Specs(a) + Specs(b)
  {
  }

  /** What the constructors of the watchers `ws`, run in order, append to `d`: each watcher
      once for every read of `d`'s property on its path. */
  function Subscribed(st: Store, ws: seq<Watcher>, d: Dep): seq<Watcher>
    decreases |ws|
  {
    if ws == [] then []
    else
      var w := ws[|ws| - 1];
      Subscribed(st, ws[..|ws| - 1], d) + Repeat(w, Count(Touched(st, Obj(st.root), Split(w.expression, '.')), d))
  }

  lemma SubscribedSnoc(st: Store, ws: seq<Watcher>, w: Watcher, d: Dep)
    ensures Subscribed(st, ws + [w], d) ==
      Subscribed(st, ws, d) + Repeat(w, Count(Touched(st, Obj(st.root), Split(w.expression, '.')), d))
  {
    assert (ws + [w])[..|ws|] == ws;
  }

  lemma {:induction false} SubscribedAppend(st: Store, a: seq<Watcher>, b: seq<Watcher>, d: Dep)
    ensures Subscribed(st, a + b, d) == Subscribed(st, a, d) + Subscribed(st, b, d)
    decreases |b|
  {
    if b == [] {
      assert a + b == a;
    } else {
      var init := b[..|b| - 1];
      var w := b[|b| - 1];
      assert a + b == (a + init) + [w];
      assert b == init + [w];
      SubscribedAppend(st, a, init, d);
      SubscribedSnoc(st, a + init, w, d);
      SubscribedSnoc(st, init, w, d);
    }
  }

  /** Each watcher of `ws` belongs to `vm` and holds the value its expression reads. */
  ghost predicate Started(vm: MVVM, st: Store, ws: seq<Watcher>)
    reads ws
  {
    forall w :: w in ws ==> w.vm == vm && GetValue(st, w.expression) == Some(w.oldValue)
  }

  // ---------------------------------------------------------------------------------------
  // CompileUtil.text, bind, html, model, on
  // ---------------------------------------------------------------------------------------

  /** `CompileUtil.text(vm, node, raw)`. With placeholders, the `replace` callback creates a
      watcher for each placeholder, in order, and returns `String` of its value; the node
      then takes the substituted text. Without, one watcher for the whole text. */
  method HandleText(vm: MVVM, node: Node, raw: string) returns (ok: bool, ghost ws: seq<Watcher>)
    requires vm.Valid() && vm.target == null
    modifies vm`target, vm.deps`subs, node`text
    ensures vm.Valid() && vm.target == null && vm.store == old(vm.store)
    ensures (if ok then Some(node.State()) else None) == Render(vm.store, vm.methods, Text, raw, old(node.State()))
    ensures !ok ==> node.State() == old(node.State())
    ensures ok ==> Specs(ws) == Watches(Text, node, raw)
    ensures Specs(ws) == Made(vm.store, Text, node, raw)
    ensures Started(vm, vm.store, ws) && forall w :: w in ws ==> fresh(w)
    ensures forall d :: d in vm.deps ==> d.subs == old(d.subs) + Subscribed(vm.store, ws, d)
  {
    if Test(raw) {
      var s;
      s, ws := WatchHoles(vm, node, raw);
      if s.None? {
        return false, ws;
      }
      Updater.Text(node, s.value);
      ok := true;
    } else {
      ok, ws := HandlePlainText(vm, node, raw);
    }
  }

  /** The branch of `CompileUtil.text` for a text without placeholders. */
  method HandlePlainText(vm: MVVM, node: Node, raw: string) returns (ok: bool, ghost ws: seq<Watcher>)
    requires vm.Valid() && vm.target == null && !Test(raw)
    modifies vm`target, vm.deps`subs, node`text
    ensures vm.Valid() && vm.target == null && vm.store == old(vm.store)
    ensures (if ok then Some(node.State()) else None) == Render(vm.store, vm.methods, Text, raw, old(node.State()))
    ensures !ok ==> node.State() == old(node.State())
    ensures ok ==> Specs(ws) == Watches(Text, node, raw)
    ensures Specs(ws) == Made(vm.store, Text, node, raw)
    ensures Started(vm, vm.store, ws) && forall w :: w in ws ==> fresh(w)
    ensures forall d :: d in vm.deps ==> d.subs == old(d.subs) + Subscribed(vm.store, ws, d)
  {
    var v := vm.Get(raw);
    if v.None? {
      return false, [];
    }
    var w := new Watcher(vm, raw, TextView(node));
    forall d | d in vm.deps
      ensures d.subs == old(d.subs) + Subscribed(vm.store, [w], d)
    {
      SubscribedSnoc(vm.store, [], w, d);
    }
    Updater.Text(node, TextString(v.value));
    ok, ws := true, [w];
  }

  /** The `replace` of `CompileUtil.text` over a text with placeholders: a watcher for each
      placeholder, in order, and the text with each placeholder replaced by `String` of its
      value, `None` when a read throws. */
  method WatchHoles(vm: MVVM, node: Node, raw: string) returns (r: Option<string>, ghost ws: seq<Watcher>)
    requires vm.Valid() && vm.target == null && Test(raw)
    modifies vm`target, vm.deps`subs
    ensures vm.Valid() && vm.target == null && vm.store == old(vm.store)
    ensures r == ContentValue(vm.store, raw)
    ensures r.Some? ==> Specs(ws) == Watches(Text, node, raw)
    ensures Specs(ws) == Made(vm.store, Text, node, raw)
    ensures Started(vm, vm.store, ws) && forall w :: w in ws ==> fresh(w)
    ensures forall d :: d in vm.deps ==> d.subs == old(d.subs) + Subscribed(vm.store, ws, d)
  {
    ws := [];
    ghost var st := vm.store;
    ghost var subs0 := map d | d in vm.deps :: d.subs;
    var ps := Scan(raw);
    var es := Holes(ps);
    var vals: seq<string> := [];
    var i := 0;
    while i < |es|
      invariant 0 <= i <= |es|
      invariant vm.Valid() && vm.target == null && vm.store == st
      invariant HoleStrings(st, es[..i]) == Some(vals)
      invariant HoleWatchers(ws, es, node, raw) && |ws| == i
      invariant forall w :: w in ws ==> fresh(w)
      invariant Started(vm, st, ws) && SubsFrom(vm, st, subs0, ws)
    {
      var ok;
      ok, vals, ws := WatchHole(vm, node, raw, st, subs0, es, i, vals, ws);
      if !ok {
        HoleWatchesMade(vm, st, ws, node, raw);
        return None, ws;
      }
      i := i + 1;
    }
    assert es[..i] == es;
    HoleWatchesMade(vm, st, ws, node, raw);
    HoleWatches(ws, node, raw);
    r := Some(Subst(ps, vals));
  }

  /** The watchers `ws` are those of the first `|ws|` placeholders `es` of the text `raw`. */
  ghost predicate HoleWatchers(ws: seq<Watcher>, es: seq<string>, node: Node, raw: string)
    reads ws
  {
    |ws| <= |es| && forall j :: 0 <= j < |ws| ==> ws[j].expression == es[j] && ws[j].view == ContentView(node, raw)
  }

  lemma HoleWatches(ws: seq<Watcher>, node: Node, raw: string)
    requires Test(raw) && |ws| == |Holes(Scan(raw))| && HoleWatchers(ws, Holes(Scan(raw)), node, raw)
    ensures Specs(ws) == Watches(Text, node, raw)
  {
  }

  /** The watchers of the placeholders before the first read that throws are those `Made` lists. */
  lemma HoleWatchesMade(vm: MVVM, st: Store, ws: seq<Watcher>, node: Node, raw: string)
    requires Test(raw) && HoleWatchers(ws, Holes(Scan(raw)), node, raw) && Started(vm, st, ws)
    requires |ws| < |Holes(Scan(raw))| ==> GetValue(st, Holes(Scan(raw))[|ws|]).None?
    ensures Specs(ws) == Made(st, Text, node, raw)
  {
    var es := Holes(Scan(raw));
    var n := ReadsBefore(st, es);
    assert n == |ws|;
  }

  /** One call of the `replace` callback, for the placeholder `es[i]`: read it, create its
      watcher, and add `String` of the value to the replacements made so far. */
  method WatchHole(vm: MVVM, node: Node, raw: string, ghost st: Store, ghost subs0: map<Dep, seq<Watcher>>,
                   es: seq<string>, i: nat, vals: seq<string>, ghost ws: seq<Watcher>)
    returns (ok: bool, vals': seq<string>, ghost ws': seq<Watcher>)
    requires vm.Valid() && vm.target == null && vm.store == st && i < |es|
    requires HoleStrings(st, es[..i]) == Some(vals)
    requires |ws| == i && HoleWatchers(ws, es, node, raw)
    requires Started(vm, st, ws) && SubsFrom(vm, st, subs0, ws)
    modifies vm`target, vm.deps`subs
    ensures vm.Valid() && vm.target == null && vm.store == st
    ensures ok ==> HoleStrings(st, es[..i + 1]) == Some(vals')
    ensures !ok ==> HoleStrings(st, es) == None && ws' == ws
    ensures !ok ==> GetValue(st, es[i]).None?
    ensures ok ==> |ws'| == i + 1 && HoleWatchers(ws', es, node, raw)
    ensures forall w :: w in ws' ==> w in ws || fresh(w)
    ensures Started(vm, st, ws') && SubsFrom(vm, st, subs0, ws')
  {
    assert es[..i + 1][..i] == es[..i];
    var v := vm.Get(es[i]);
    if v.None? {
      HoleStringsStops(st, es, i + 1);
      return false, vals, ws;
    }
    var w := HoleWatcher(vm, node, raw, st, subs0, es[i], ws);
    ok, vals', ws' := true, vals + [Show(v.value)], ws + [w];
  }

  /** `new Watcher(vm, e, …)` for the placeholder `e` of the text `raw`, after the watchers `ws`. */
  method HoleWatcher(vm: MVVM, node: Node, raw: string, ghost st: Store, ghost subs0: map<Dep, seq<Watcher>>,
                     e: string, ghost ws: seq<Watcher>)
    returns (w: Watcher)
    requires vm.Valid() && vm.target == null && vm.store == st && GetValue(st, e).Some?
    requires Started(vm, st, ws) && SubsFrom(vm, st, subs0, ws)
    modifies vm`target, vm.deps`subs
    ensures vm.Valid() && vm.target == null && vm.store == st
    ensures fresh(w) && w.expression == e && w.view == ContentView(node, raw)
    ensures Started(vm, st, ws + [w]) && SubsFrom(vm, st, subs0, ws + [w])
  {
    w := new Watcher(vm, e, ContentView(node, raw));
    forall d | d in vm.deps
      ensures d.subs == subs0[d] + Subscribed(st, ws + [w], d)
    {
      SubscribedSnoc(st, ws, w, d);
      Associative(subs0[d], Subscribed(st, ws, d), Repeat(w, Count(Touched(st, Obj(st.root), Split(e, '.')), d)));
    }
  }

  /** `CompileUtil.bind(vm, node, e, attr)`: read, create the watcher, set the attribute. When
      `setAttribute` throws, the watcher stays subscribed. */
  method HandleBind(vm: MVVM, node: Node, e: string, attr: string) returns (ok: bool, ghost ws: seq<Watcher>)
    requires vm.Valid() && vm.target == null
    modifies vm`target, vm.deps`subs, node`attrs
    ensures vm.Valid() && vm.target == null && vm.store == old(vm.store)
    ensures (if ok then Some(node.State()) else None) == Render(vm.store, vm.methods, Bind(attr), e, old(node.State()))
    ensures !ok ==> node.State() == old(node.State())
    ensures ok ==> Specs(ws) == Watches(Bind(attr), node, e)
    ensures Specs(ws) == Made(vm.store, Bind(attr), node, e)
    ensures Started(vm, vm.store, ws) && forall w :: w in ws ==> fresh(w)
    ensures forall d :: d in vm.deps ==> d.subs == old(d.subs) + Subscribed(vm.store, ws, d)
  {
    var v := vm.Get(e);
    if v.None? {
      return false, [];
    }
    var w := new Watcher(vm, e, BindView(node, attr));
    forall d | d in vm.deps
      ensures d.subs == old(d.subs) + Subscribed(vm.store, [w], d)
    {
      SubscribedSnoc(vm.store, [], w, d);
    }
    ok := Updater.Bind(node, attr, Show(v.value));
    ws := [w];
  }

  /** `CompileUtil.html(vm, node, e)`: read, create the watcher, set the inner HTML. */
  method HandleHtml(vm: MVVM, node: Node, e: string) returns (ok: bool, ghost ws: seq<Watcher>)
    requires vm.Valid() && vm.target == null
    modifies vm`target, vm.deps`subs, node`html
    ensures vm.Valid() && vm.target == null && vm.store == old(vm.store)
    ensures (if ok then Some(node.State()) else None) == Render(vm.store, vm.methods, Html, e, old(node.State()))
    ensures !ok ==> node.State() == old(node.State())
    ensures ok ==> Specs(ws) == Watches(Html, node, e)
    ensures Specs(ws) == Made(vm.store, Html, node, e)
    ensures Started(vm, vm.store, ws) && forall w :: w in ws ==> fresh(w)
    ensures forall d :: d in vm.deps ==> d.subs == old(d.subs) + Subscribed(vm.store, ws, d)
  {
    var v := vm.Get(e);
    if v.None? {
      return false, [];
    }
    var w := new Watcher(vm, e, HtmlView(node));
    forall d | d in vm.deps
      ensures d.subs == old(d.subs) + Subscribed(vm.store, [w], d)
    {
      SubscribedSnoc(vm.store, [], w, d);
    }
    Updater.Html(node, Show(v.value));
    ok, ws := true, [w];
  }

  /** `CompileUtil.model(vm, node, e)`: read, create the watcher, set the input's value, and
      listen to `input` to write the input's value back with `setValue` (`MVVM.OnInput`). */
  method HandleModel(vm: MVVM, node: Node, e: string) returns (ok: bool, ghost ws: seq<Watcher>)
    requires vm.Valid() && vm.target == null
    modifies vm`target, vm.deps`subs, node`value, node`listeners
    ensures vm.Valid() && vm.target == null && vm.store == old(vm.store)
    ensures (if ok then Some(node.State()) else None) == Render(vm.store, vm.methods, Model, e, old(node.State()))
    ensures !ok ==> node.State() == old(node.State())
    ensures ok ==> Specs(ws) == Watches(Model, node, e)
    ensures Specs(ws) == Made(vm.store, Model, node, e)
    ensures Started(vm, vm.store, ws) && forall w :: w in ws ==> fresh(w)
    ensures forall d :: d in vm.deps ==> d.subs == old(d.subs) + Subscribed(vm.store, ws, d)
  {
    var v := vm.Get(e);
    if v.None? {
      return false, [];
    }
    var w := new Watcher(vm, e, ModelView(node));
    forall d | d in vm.deps
      ensures d.subs == old(d.subs) + Subscribed(vm.store, [w], d)
    {
      SubscribedSnoc(vm.store, [], w, d);
    }
    Updater.Model(node, Show(v.value));
    node.listeners := node.listeners + [Listener("input", WriteBack(e))];
    ok, ws := true, [w];
  }

  /** `CompileUtil.on(vm, node, e, event)`: listen to `event` with the method named `e`,
      when `$methods` has one. */
  method HandleOn(vm: MVVM, node: Node, e: string, event: string)
    modifies node`listeners
    ensures Some(node.State()) == Render(vm.store, vm.methods, On(event), e, old(node.State()))
  {
    if e in vm.methods {
      node.listeners := node.listeners + [Listener(event, CallMethod(e))];
    }
  }

  /** `CompileUtil[method](vm, node, value, type)`. */
  method Dispatch(vm: MVVM, node: Node, d: Directive, e: string) returns (ok: bool, ghost ws: seq<Watcher>)
    requires vm.Valid() && vm.target == null
    modifies vm`target, vm.deps`subs, node`text, node`attrs, node`html, node`value, node`listeners
    ensures vm.Valid() && vm.target == null && vm.store == old(vm.store)
    ensures (if ok then Some(node.State()) else None) == Render(vm.store, vm.methods, d, e, old(node.State()))
    ensures !ok ==> node.State() == old(node.State())
    ensures ok ==> Specs(ws) == Watches(d, node, e)
    ensures Specs(ws) == Made(vm.store, d, node, e)
    ensures Started(vm, vm.store, ws) && forall w :: w in ws ==> fresh(w)
    ensures forall dep :: dep in vm.deps ==> dep.subs == old(dep.subs) + Subscribed(vm.store, ws, dep)
  {
    match d {
      case Text => ok, ws := HandleText(vm, node, e);
      case Bind(attr) => ok, ws := HandleBind(vm, node, e, attr);
      case Html => ok, ws := HandleHtml(vm, node, e);
      case Model => ok, ws := HandleModel(vm, node, e);
      case On(event) =>
        HandleOn(vm, node, e, event);
        ok, ws := true, [];
      case Inherited =>
        ok, ws := true, [];
    }
  }

  // ---------------------------------------------------------------------------------------
  // compileElement, compileText
  // ---------------------------------------------------------------------------------------

  /** The outcome of compiling part of the page: the node after it, the watchers created, in
      order, and whether it ended without an exception. */
  datatype Pass = Pass(state: NodeState, watches: seq<(string, View)>, ok: bool)

  /** The `forEach` of `compileElement` over the snapshot `snap` of the attributes, from
      position `i`, with the node at `s` and the watchers `watches` created so far: a name
      without `v-` is passed over; a directive whose handler is missing throws; otherwise
      the handler runs and the attribute is removed. A directive's value is read from the
      snapshot: no handler can have changed it, since `bind` never writes a name with `-`. */
  function ElementFrom(st: Store, methods: set<string>, node: Node, snap: seq<Attr>, i: nat,
                       s: NodeState, watches: seq<(string, View)>): Pass
    requires i <= |snap|
    decreases |snap| - i
  {
    if i == |snap| then Pass(s, watches, true)
    else if !IsDirective(snap[i].name) then ElementFrom(st, methods, node, snap, i + 1, s, watches)
    else match Parse(snap[i].name)
      case None => Pass(s, watches, false)
      case Some(d) =>
        match Render(st, methods, d, snap[i].value, s)
        case None => Pass(s, watches + Made(st, d, node, snap[i].value), false)
        case Some(s') =>
          ElementFrom(st, methods, node, snap, i + 1, s'.(attrs := RemoveAttr(s'.attrs, snap[i].name)),
                      watches + Watches(d, node, snap[i].value))
  }

  /** `compileText`: a text with a placeholder goes to `CompileUtil.text`; any other is left alone. */
  function TextPass(st: Store, methods: set<string>, node: Node, s: NodeState): Pass
  {
    if Test(s.text) then
      match Render(st, methods, Text, s.text, s)
      case None => Pass(s, Made(st, Text, node, s.text), false)
      case Some(s') => Pass(s', Watches(Text, node, s.text), true)
    else Pass(s, [], true)
  }

  /** One node of the walk: `compileElement` for an element, `compileText` for any other node. */
  function NodePass(st: Store, methods: set<string>, node: Node, s: NodeState): Pass
  {
    if node.kind == Element then ElementFrom(st, methods, node, s.attrs, 0, s, []) else TextPass(st, methods, node, s)
  }

  /** The names the `v-bind` directives of `snap[i..]` write. */
  function BindTargets(snap: seq<Attr>, i: nat): set<string>
    requires i <= |snap|
    decreases |snap| - i
  {
    if i == |snap| then {}
    else if IsDirective(snap[i].name) && Parse(snap[i].name).Some? && Parse(snap[i].name).value.Bind? then
      BindTargets(snap, i + 1) + {Parse(snap[i].name).value.attr}
    else BindTargets(snap, i + 1)
  }

  /** A handler's first render writes no attribute but the one a `v-bind` names. */
  lemma RenderAttrs(st: Store, methods: set<string>, d: Directive, e: string, s: NodeState, name: string)
    requires Render(st, methods, d, e, s).Some? && (d.Bind? ==> name != d.attr)
    ensures GetAttr(Render(st, methods, d, e, s).value.attrs, name) == GetAttr(s.attrs, name)
  {
    if d.Bind? {
      GetSetAttr(s.attrs, d.attr, Show(GetValue(st, e).value), name);
    }
  }

  /** The `removeAttribute` of the pass: when it ends without an exception, a directive of
      `snap[i..]`, or one the node did not have, is absent at the end, and a name without
      `v-` that no `v-bind` of `snap[i..]` writes reads as it did. */
  lemma {:induction false} ElementCleans(st: Store, methods: set<string>, node: Node, snap: seq<Attr>, i: nat,
                                         s: NodeState, watches: seq<(string, View)>, name: string)
    requires i <= |snap| && ElementFrom(st, methods, node, snap, i, s, watches).ok
    ensures var r := ElementFrom(st, methods, node, snap, i, s, watches).state;
      IsDirective(name) && (GetAttr(s.attrs, name) == None || exists j :: i <= j < |snap| && snap[j].name == name)
      ==> GetAttr(r.attrs, name) == None
    ensures var r := ElementFrom(st, methods, node, snap, i, s, watches).state;
      !IsDirective(name) && name !in BindTargets(snap, i) ==> GetAttr(r.attrs, name) == GetAttr(s.attrs, name)
    decreases |snap| - i
  {
    if i < |snap| {
      var a := snap[i];
      if !IsDirective(a.name) {
        ElementCleans(st, methods, node, snap, i + 1, s, watches, name);
      } else {
        var d := Parse(a.name).value;
        var s' := Render(st, methods, d, a.value, s).value;
        ElementCleans(st, methods, node, snap, i + 1, s'.(attrs := RemoveAttr(s'.attrs, a.name)),
                      watches + Watches(d, node, a.value), name);
        GetRemoveAttr(s'.attrs, a.name, name);
        if d.Bind? {
          BindTargetHasNoHyphen(a.name);
        }
        if !d.Bind? || name != d.attr {
          RenderAttrs(st, methods, d, a.value, s, name);
        }
      }
    }
  }

  /** After `compileElement` ends without an exception no `v-` attribute is left on the
      element, and any other attribute that none of its `v-bind` directives writes is as it was. */
  lemma CompileElementCleans(st: Store, methods: set<string>, node: Node, s: NodeState, name: string)
    requires node.kind == Element && NodePass(st, methods, node, s).ok
    ensures IsDirective(name) ==> GetAttr(NodePass(st, methods, node, s).state.attrs, name) == None
    ensures !IsDirective(name) && name !in BindTargets(s.attrs, 0) ==>
      GetAttr(NodePass(st, methods, node, s).state.attrs, name) == GetAttr(s.attrs, name)
  {
    ElementCleans(st, methods, node, s.attrs, 0, s, [], name);
    if GetAttr(s.attrs, name).Some? {
      GetAttrFound(s.attrs, name);
    }
  }

  /** `CompileUtil.text` over a text with placeholders creates one watcher per placeholder, at
      least one, each on the inner text of its placeholder; whatever value any of them fires
      with, it rewrites the whole text to `getContentValue` of the raw text, as the first
      render did. */
  lemma TextWatchers(st: Store, methods: set<string>, node: Node, raw: string, s: NodeState, v: Value)
    requires Test(raw)
    ensures |Watches(Text, node, raw)| == |Holes(Scan(raw))| > 0
    ensures forall i :: 0 <= i < |Holes(Scan(raw))| ==> Watches(Text, node, raw)[i].0 == Holes(Scan(raw))[i]
    ensures forall i :: 0 <= i < |Watches(Text, node, raw)| ==>
      var eff := CallbackEffect(st, Watches(Text, node, raw)[i].1, v);
      var r := Render(st, methods, Text, raw, s);
      && (eff.Some? <==> r.Some?)
      && (r.Some? ==> r.value == Apply(s, eff.value))
  {
    TestIffHole(raw);
  }

  /** `compileElement(node)`. */
  method CompileElement(vm: MVVM, node: Node) returns (ok: bool, ghost ws: seq<Watcher>)
    requires vm.Valid() && vm.target == null
    modifies vm`target, vm.deps`subs, node`text, node`attrs, node`html, node`value, node`listeners
    ensures vm.Valid() && vm.target == null && vm.store == old(vm.store)
    ensures var p := ElementFrom(vm.store, vm.methods, node, old(node.attrs), 0, old(node.State()), []);
      ok == p.ok && node.State() == p.state && Specs(ws) == p.watches
    ensures Started(vm, vm.store, ws) && forall w :: w in ws ==> fresh(w)
    ensures forall d :: d in vm.deps ==> d.subs == old(d.subs) + Subscribed(vm.store, ws, d)
  {
    var snap := node.attrs;
    ghost var st := vm.store;
    ghost var subs0 := map d | d in vm.deps :: d.subs;
    ghost var p := ElementFrom(st, vm.methods, node, snap, 0, node.State(), []);
    ws := [];
    assert Specs(ws) == [];
    var i := 0;
    ok := true;
    while i < |snap| && ok
      invariant 0 <= i <= |snap|
      invariant vm.Valid() && vm.target == null && vm.store == st
      invariant ok ==> p == ElementFrom(st, vm.methods, node, snap, i, node.State(), Specs(ws))
      invariant !ok ==> !p.ok && node.State() == p.state && Specs(ws) == p.watches
      invariant forall w :: w in ws ==> fresh(w) && w.vm == vm && GetValue(st, w.expression) == Some(w.oldValue)
      invariant forall d :: d in vm.deps ==> d.subs == subs0[d] + Subscribed(st, ws, d)
    {
      ok, ws := CompileAttr(vm, node, st, subs0, p, snap, i, ws);
      i := i + 1;
    }
  }

  /** One turn of the `forEach` of `compileElement`, on the attribute `snap[i]`. */
  method CompileAttr(vm: MVVM, node: Node, ghost st: Store, ghost subs0: map<Dep, seq<Watcher>>, ghost p: Pass,
                     snap: seq<Attr>, i: nat, ghost ws: seq<Watcher>) returns (ok: bool, ghost ws': seq<Watcher>)
    requires vm.Valid() && vm.target == null && vm.store == st && i < |snap|
    requires p == ElementFrom(st, vm.methods, node, snap, i, node.State(), Specs(ws))
    requires forall w :: w in ws ==> w.vm == vm && GetValue(st, w.expression) == Some(w.oldValue)
    requires forall d :: d in vm.deps ==> d in subs0 && d.subs == subs0[d] + Subscribed(st, ws, d)
    modifies vm`target, vm.deps`subs, node`text, node`attrs, node`html, node`value, node`listeners
    ensures vm.Valid() && vm.target == null && vm.store == st && vm.deps == old(vm.deps)
    ensures ok ==> p == ElementFrom(st, vm.methods, node, snap, i + 1, node.State(), Specs(ws'))
    ensures !ok ==> !p.ok && node.State() == p.state && Specs(ws') == p.watches
    ensures forall w :: w in ws' ==> (w in ws || fresh(w)) && w.vm == vm && GetValue(st, w.expression) == Some(w.oldValue)
    ensures forall d :: d in vm.deps ==> d.subs == subs0[d] + Subscribed(st, ws', d)
  {
    var a := snap[i];
    if IsDirective(a.name) {
      var d := Parse(a.name);
      if d.None? {
        ok, ws' := false, ws;
      } else {
        ok, ws' := CompileDirective(vm, node, st, subs0, p, snap, i, d.value, ws);
      }
    } else {
      ok, ws' := true, ws;
    }
  }

  /** The directive `d` that the attribute `snap[i]` names: its handler runs on the attribute's
      value, and when it does not throw the attribute is removed. */
  method CompileDirective(vm: MVVM, node: Node, ghost st: Store, ghost subs0: map<Dep, seq<Watcher>>,
                          ghost p: Pass, snap: seq<Attr>, i: nat, d: Directive, ghost ws: seq<Watcher>)
    returns (ok: bool, ghost ws': seq<Watcher>)
    requires vm.Valid() && vm.target == null && vm.store == st && i < |snap|
    requires IsDirective(snap[i].name) && Parse(snap[i].name) == Some(d)
    requires p == ElementFrom(st, vm.methods, node, snap, i, node.State(), Specs(ws))
    requires forall w :: w in ws ==> w.vm == vm && GetValue(st, w.expression) == Some(w.oldValue)
    requires forall d :: d in vm.deps ==> d in subs0 && d.subs == subs0[d] + Subscribed(st, ws, d)
    modifies vm`target, vm.deps`subs, node`text, node`attrs, node`html, node`value, node`listeners
    ensures vm.Valid() && vm.target == null && vm.store == st && vm.deps == old(vm.deps)
    ensures ok ==> p == ElementFrom(st, vm.methods, node, snap, i + 1, node.State(), Specs(ws'))
    ensures !ok ==> !p.ok && node.State() == p.state && Specs(ws') == p.watches
    ensures forall w :: w in ws' ==> (w in ws || fresh(w)) && w.vm == vm && GetValue(st, w.expression) == Some(w.oldValue)
    ensures forall d :: d in vm.deps ==> d.subs == subs0[d] + Subscribed(st, ws', d)
  {
    ElementDirective(st, vm.methods, node, snap, i, node.State(), Specs(ws), d);
    ghost var more;
    ok, more := Dispatch(vm, node, d, snap[i].value);
    forall dep | dep in vm.deps
      ensures dep.subs == subs0[dep] + Subscribed(st, ws + more, dep)
    {
      SubscribedAppend(st, ws, more, dep);
      Associative(subs0[dep], Subscribed(st, ws, dep), Subscribed(st, more, dep));
    }
    ws' := ws + more;
    SpecsAppend(ws, more);
    if ok {
      ghost var r := node.State();
      node.attrs := RemoveAttr(node.attrs, snap[i].name);
      assert node.State() == r.(attrs := RemoveAttr(r.attrs, snap[i].name));
      assert Specs(ws') == Specs(ws) + Watches(d, node, snap[i].value);
    }
  }

  /** How the walk over the attributes moves past the directive `d` named by `snap[i]`: it
      throws when the handler does, and otherwise goes on without the attribute. */
  lemma ElementDirective(st: Store, methods: set<string>, node: Node, snap: seq<Attr>, i: nat,
                         s: NodeState, watches: seq<(string, View)>, d: Directive)
    requires i < |snap| && IsDirective(snap[i].name) && Parse(snap[i].name) == Some(d)
    ensures var p := ElementFrom(st, methods, node, snap, i, s, watches);
      match Render(st, methods, d, snap[i].value, s)
      case None => !p.ok && p.state == s && p.watches == watches + Made(st, d, node, snap[i].value)
      case Some(r) =>
        p == ElementFrom(st, methods, node, snap, i + 1, r.(attrs := RemoveAttr(r.attrs, snap[i].name)),
                         watches + Watches(d, node, snap[i].value))
  {
  }

  /** `compileText(node)`. */
  method CompileText(vm: MVVM, node: Node) returns (ok: bool, ghost ws: seq<Watcher>)
    requires vm.Valid() && vm.target == null
    modifies vm`target, vm.deps`subs, node`text
    ensures vm.Valid() && vm.target == null && vm.store == old(vm.store)
    ensures var p := TextPass(vm.store, vm.methods, node, old(node.State()));
      ok == p.ok && node.State() == p.state && Specs(ws) == p.watches
    ensures Started(vm, vm.store, ws) && forall w :: w in ws ==> fresh(w)
    ensures forall d :: d in vm.deps ==> d.subs == old(d.subs) + Subscribed(vm.store, ws, d)
  {
    if Test(node.text) {
      ok, ws := HandleText(vm, node, node.text);
    } else {
      ok, ws := true, [];
    }
  }

  /** The body of the `forEach` of `compile` for one child, before its own children. */
  method CompileNode(vm: MVVM, node: Node) returns (ok: bool, ghost ws: seq<Watcher>)
    requires vm.Valid() && vm.target == null
    modifies vm`target, vm.deps`subs, node`text, node`attrs, node`html, node`value, node`listeners
    ensures vm.Valid() && vm.target == null && vm.store == old(vm.store)
    ensures var p := NodePass(vm.store, vm.methods, node, old(node.State()));
      ok == p.ok && node.State() == p.state && Specs(ws) == p.watches
    ensures Started(vm, vm.store, ws) && forall w :: w in ws ==> fresh(w)
    ensures forall d :: d in vm.deps ==> d.subs == old(d.subs) + Subscribed(vm.store, ws, d)
  {
    if node.kind == Element {
      ok, ws := CompileElement(vm, node);
    } else {
      ok, ws := CompileText(vm, node);
    }
  }

  // ---------------------------------------------------------------------------------------
  // compile
  // ---------------------------------------------------------------------------------------

  /** The nodes below `n` in the order `compile(n)` visits them: each child, then the nodes
      below it, child after child. */
  ghost function Order(n: Node): seq<Node>
    requires n.Valid()
    decreases n.Repr, 1
  {
    OrderFrom(n, 0)
  }

  /** The nodes the `forEach` of `compile(n)` visits from child `i` on. */
  ghost function OrderFrom(n: Node, i: nat): seq<Node>
    requires n.Valid() && i <= |n.children|
    decreases n.Repr, 0, |n.children| - i
  {
    if i == |n.children| then []
    else
      var c := n.children[i];
      ChildFacts(n, i);
      [c] + Order(c) + OrderFrom(n, i + 1)
  }

  /** The walk visits only nodes below `n`. */
  lemma OrderBelow(n: Node)
    requires n.Valid()
    ensures forall x :: x in Order(n) ==> x in n.Repr && x != n
    decreases n.Repr, 1
  {
    OrderFromBelow(n, 0);
  }

  /** The nodes visited from child `i` on lie below `n`. */
  lemma {:induction false} OrderFromBelow(n: Node, i: nat)
    requires n.Valid() && i <= |n.children|
    ensures forall x :: x in OrderFrom(n, i) ==> x in n.Repr && x != n
    decreases n.Repr, 0, |n.children| - i
  {
    if i < |n.children| {
      var c := n.children[i];
      ChildFacts(n, i);
      OrderBelow(c);
      OrderFromBelow(n, i + 1);
    }
  }

  /** The state of each node of `ns`. */
  ghost function States(ns: set<Node>): map<Node, NodeState>
    reads ns
  {
    map n | n in ns :: n.State()
  }

  predicate Covers(ns: seq<Node>, states: map<Node, NodeState>)
  {
    forall x :: x in ns ==> x in states
  }

  /** Every node of `ns` compiles without an exception from its state in `states`. */
  predicate AllOk(st: Store, methods: set<string>, ns: seq<Node>, states: map<Node, NodeState>)
    requires Covers(ns, states)
  {
    forall x :: x in ns ==> NodePass(st, methods, x, states[x]).ok
  }

  /** The watchers the nodes of `ns` create, node after node. */
  function AllWatches(st: Store, methods: set<string>, ns: seq<Node>, states: map<Node, NodeState>): seq<(string, View)>
    requires Covers(ns, states)
    decreases |ns|
  {
    if ns == [] then []
    else AllWatches(st, methods, ns[..|ns| - 1], states) + NodePass(st, methods, ns[|ns| - 1], states[ns[|ns| - 1]]).watches
  }

  lemma AllOkAppend(st: Store, methods: set<string>, a: seq<Node>, b: seq<Node>, states: map<Node, NodeState>)
    requires Covers(a, states) && Covers(b, states)
    ensures Covers(a + b, states)
    ensures AllOk(st, methods, a + b, states) <==> AllOk(st, methods, a, states) && AllOk(st, methods, b, states)
  {
  }

  lemma {:induction false} AllWatchesAppend(st: Store, methods: set<string>, a: seq<Node>, b: seq<Node>,
                                            states: map<Node, NodeState>)
    requires Covers(a, states) && Covers(b, states)
    ensures Covers(a + b, states)
    ensures AllWatches(st, methods, a + b, states) == AllWatches(st, methods, a, states) + AllWatches(st, methods, b, states)
    decreases |b|
  {
    if b == [] {
      assert a + b == a;
    } else {
      var init, x := b[..|b| - 1], b[|b| - 1];
      assert (a + b)[..|a + b| - 1] == a + init;
      assert (a + b)[|a + b| - 1] == x;
      AllWatchesAppend(st, methods, a, init, states);
      var last := NodePass(st, methods, x, states[x]).watches;
      assert AllWatches(st, methods, a + b, states) == AllWatches(st, methods, a + init, states) + last;
      assert AllWatches(st, methods, b, states) == AllWatches(st, methods, init, states) + last;
      Associative(AllWatches(st, methods, a, states), AllWatches(st, methods, init, states), last);
    }
  }

  /** `compile(el)`: each child in order is compiled, then, when it has children, the nodes
      below it; an exception stops the walk, and `ok` is whether it ended without one. The
      nodes below `el` start in the states `S`, the data is `st`, and the walk so far created
      the watchers `ws0`, so that each dep's subscribers are those of `subs0` followed by what
      the watchers registered. */
  method Compile(vm: MVVM, el: Node, ghost st: Store, ghost S: map<Node, NodeState>,
                 ghost subs0: map<Dep, seq<Watcher>>, ghost ws0: seq<Watcher>)
    returns (ok: bool, ghost ws: seq<Watcher>)
    requires vm.Valid() && vm.target == null && vm.store == st && el.Valid()
    requires forall n :: n in el.Repr ==> n in S
    requires forall n :: n in el.Repr && n != el ==> n.State() == S[n]
    requires Started(vm, st, ws0) && SubsFrom(vm, st, subs0, ws0)
    modifies vm`target, vm.deps`subs, el.Repr - {el}
    ensures vm.Valid() && vm.target == null && vm.store == st && vm.deps == old(vm.deps)
    ensures Covers(Order(el), S)
    ensures ok == AllOk(st, vm.methods, Order(el), S)
    ensures ok ==> Passed(st, vm.methods, el, S, el.Repr)
    ensures ok ==> Specs(ws) == Specs(ws0) + AllWatches(st, vm.methods, Order(el), S)
    ensures forall w :: w in ws ==> w in ws0 || fresh(w)
    ensures Started(vm, st, ws) && SubsFrom(vm, st, subs0, ws)
    decreases el.Repr, 1
  {
    WalkStart(st, vm.methods, el, S, ws0);
    ws := ws0;
    var i := 0;
    ok := true;
    while i < |el.children| && ok
      invariant vm.Valid() && vm.target == null && vm.store == st && vm.deps == old(vm.deps)
      invariant Walked(st, vm.methods, el, S, i, ok, ws0, ws)
      invariant ok ==> Passed(st, vm.methods, el, S, Below(el, i))
      invariant forall w :: w in ws ==> w in ws0 || fresh(w)
      invariant Started(vm, st, ws) && SubsFrom(vm, st, subs0, ws)
    {
      ok, ws := WalkStep(vm, el, i, st, S, subs0, ws0, ws);
      i := i + 1;
    }
    if ok {
      WalkDone(el);
    }
  }

  /** The nodes the `forEach` of `compile(n)` visits before child `i`. */
  ghost function OrderTo(n: Node, i: nat): seq<Node>
    requires n.Valid() && i <= |n.children|
  {
    if i == 0 then []
    else
      ChildFacts(n, i - 1);
      OrderTo(n, i - 1) + ([n.children[i - 1]] + Order(n.children[i - 1]))
  }

  /** The nodes below the children of `n` before `i`. */
  ghost function Below(n: Node, i: nat): set<Node>
    requires i <= |n.children|
  {
    set j, x | 0 <= j < i && x in n.children[j].Repr :: x
  }

  /** The nodes visited before child `i`, followed by those from child `i` on, are the walk. */
  lemma {:induction false} OrderToFrom(n: Node, i: nat)
    requires n.Valid() && i <= |n.children|
    ensures OrderTo(n, i) + OrderFrom(n, i) == Order(n)
  {
    if i == 0 {
      assert [] + OrderFrom(n, 0) == OrderFrom(n, 0);
    } else {
      var c := n.children[i - 1];
      ChildFacts(n, i - 1);
      OrderToFrom(n, i - 1);
      var before, part, after := OrderTo(n, i - 1), [c] + Order(c), OrderFrom(n, i);
      assert OrderTo(n, i) == before + part;
      assert OrderFrom(n, i - 1) == part + after;
      Associative(before, part, after);
    }
  }

  /** The bookkeeping of the walk of `compile(el)` up to child `i`: when `ok`, each node visited
      so far compiled without an exception and the watchers `ws` are those of `ws0` followed by
      theirs, and otherwise some node of `Order(el)` threw. */
  ghost predicate Walked(st: Store, methods: set<string>, el: Node, S: map<Node, NodeState>, i: nat,
                         ok: bool, ws0: seq<Watcher>, ws: seq<Watcher>)
  {
    && el.Valid() && i <= |el.children|
    && Covers(Order(el), S) && Covers(OrderTo(el, i), S)
    && (ok ==> AllOk(st, methods, OrderTo(el, i), S)
               && Specs(ws) == Specs(ws0) + AllWatches(st, methods, OrderTo(el, i), S))
    && (!ok ==> !AllOk(st, methods, Order(el), S))
  }

  /** Each node below `el` is in the state its pass leaves when it is in `seen`, and in its
      initial state otherwise. */
  ghost predicate Passed(st: Store, methods: set<string>, el: Node, S: map<Node, NodeState>, seen: set<Node>)
    reads el.Repr
  {
    forall n :: n in el.Repr && n != el ==>
      n in S && n.State() == if n in seen then NodePass(st, methods, n, S[n]).state else S[n]
  }

  /** Each dep's subscribers are those of `subs0` followed by what the watchers `ws` registered. */
  ghost predicate SubsFrom(vm: MVVM, st: Store, subs0: map<Dep, seq<Watcher>>, ws: seq<Watcher>)
    reads vm, vm.deps
  {
    forall d :: d in vm.deps ==> d in subs0 && d.subs == subs0[d] + Subscribed(st, ws, d)
  }

  /** Before the `forEach` of `compile(el)` starts, nothing is visited and no watcher is new. */
  lemma WalkStart(st: Store, methods: set<string>, el: Node, S: map<Node, NodeState>, ws0: seq<Watcher>)
    requires el.Valid() && forall n :: n in el.Repr ==> n in S
    ensures Walked(st, methods, el, S, 0, true, ws0, ws0) && Below(el, 0) == {}
  {
    OrderBelow(el);
    assert AllWatches(st, methods, [], S) == [];
    assert Specs(ws0) + [] == Specs(ws0);
  }

  /** When the `forEach` has been through every child, the walk has visited `Order(el)` and
      every node below `el`. */
  lemma WalkDone(el: Node)
    requires el.Valid()
    ensures OrderTo(el, |el.children|) == Order(el)
    ensures forall n :: n in el.Repr && n != el ==> n in Below(el, |el.children|)
  {
    OrderToFrom(el, |el.children|);
    assert OrderTo(el, |el.children|) + [] == OrderTo(el, |el.children|);
    forall n | n in el.Repr && n != el
      ensures n in Below(el, |el.children|)
    {
      assert n in el.children[el.Slot[n]].Repr;
    }
  }

  /** The nodes below `el.children[i]` are apart from those below the children before it, and
      adding them gives the nodes below the children up to `i`. */
  lemma BelowStep(el: Node, i: nat)
    requires el.Valid() && i < |el.children|
    ensures el.children[i].Repr !! Below(el, i)
    ensures Below(el, i + 1) == Below(el, i) + el.children[i].Repr
  {
    forall x | x in el.children[i].Repr
      ensures x !in Below(el, i)
    {
      assert el.Slot[x] == i;
    }
  }

  /** One turn of the `forEach` of `compile(el)`, on `el.children[i]`, after the walk so far
      created the watchers `ws`. */
  method WalkStep(vm: MVVM, el: Node, i: nat, ghost st: Store, ghost S: map<Node, NodeState>,
                  ghost subs0: map<Dep, seq<Watcher>>, ghost ws0: seq<Watcher>, ghost ws: seq<Watcher>)
    returns (ok: bool, ghost ws': seq<Watcher>)
    requires vm.Valid() && vm.target == null && vm.store == st && i < |el.children|
    requires forall n :: n in el.Repr ==> n in S
    requires Walked(st, vm.methods, el, S, i, true, ws0, ws)
    requires Passed(st, vm.methods, el, S, Below(el, i))
    requires Started(vm, st, ws) && SubsFrom(vm, st, subs0, ws)
    modifies vm`target, vm.deps`subs, el.children[i].Repr
    ensures vm.Valid() && vm.target == null && vm.store == st && vm.deps == old(vm.deps)
    ensures Walked(st, vm.methods, el, S, i + 1, ok, ws0, ws')
    ensures ok ==> Passed(st, vm.methods, el, S, Below(el, i + 1))
    ensures forall w :: w in ws' ==> w in ws || fresh(w)
    ensures Started(vm, st, ws') && SubsFrom(vm, st, subs0, ws')
    decreases el.Repr, 0
  {
    var c := el.children[i];
    ChildFacts(el, i);
    BelowStep(el, i);
    ok, ws' := CompileChild(vm, c, st, S, subs0, ws);
    WalkSplit(el, i, S);
    WalkAdvance(st, vm.methods, OrderTo(el, i), [c] + Order(c), OrderFrom(el, i + 1), S, ok, ws0, ws, ws');
  }

  /** How the walk's bookkeeping moves past one child: `done` are the nodes visited before
      it, `part` the child and the nodes below it, and `rest` the nodes still to come. The
      watchers of `done` are what `ws` adds to `ws0`, and compiling `part` came to `ok` and
      `ws'`. */
  lemma WalkAdvance(st: Store, methods: set<string>, done: seq<Node>, part: seq<Node>, rest: seq<Node>,
                    S: map<Node, NodeState>, ok: bool, ws0: seq<Watcher>, ws: seq<Watcher>, ws': seq<Watcher>)
    requires Covers(done, S) && Covers(part, S) && Covers(rest, S)
    requires AllOk(st, methods, done, S) && Specs(ws) == Specs(ws0) + AllWatches(st, methods, done, S)
    requires ok == AllOk(st, methods, part, S) && (ok ==> Specs(ws') == Specs(ws) + AllWatches(st, methods, part, S))
    ensures Covers(done + part, S) && Covers(done + part + rest, S)
    ensures ok ==> AllOk(st, methods, done + part, S)
    ensures ok ==> Specs(ws') == Specs(ws0) + AllWatches(st, methods, done + part, S)
    ensures !ok ==> !AllOk(st, methods, done + part + rest, S)
  {
    AllOkAppend(st, methods, done, part, S);
    AllOkAppend(st, methods, done + part, rest, S);
    if ok {
      AllWatchesAppend(st, methods, done, part, S);
      Associative(Specs(ws0), AllWatches(st, methods, done, S), AllWatches(st, methods, part, S));
    }
  }

  /** The order of the walk cut at child `i`: the nodes before it, the child and the nodes
      below it, and the nodes after it. */
  lemma WalkSplit(el: Node, i: nat, S: map<Node, NodeState>)
    requires el.Valid() && i < |el.children|
    ensures el.children[i].Valid()
    ensures OrderTo(el, i + 1) == OrderTo(el, i) + ([el.children[i]] + Order(el.children[i]))
    ensures Order(el) == OrderTo(el, i + 1) + OrderFrom(el, i + 1)
    ensures Covers(Order(el), S) ==> Covers(OrderFrom(el, i + 1), S)
  {
    ChildFacts(el, i);
    OrderToFrom(el, i + 1);
  }

  lemma Associative<T>(a: seq<T>, b: seq<T>, c: seq<T>)
    ensures (a + b) + c == a + (b + c)
  {
  }

  /** One turn of the `forEach` of `compile`, on the child `c`: `compileElement` or
      `compileText` on `c` itself, then, when it has children, `compile(c)`. `ws'` extends
      `ws` with the watchers created. */
  method CompileChild(vm: MVVM, c: Node, ghost st: Store, ghost S: map<Node, NodeState>,
                      ghost subs0: map<Dep, seq<Watcher>>, ghost ws: seq<Watcher>)
    returns (ok: bool, ghost ws': seq<Watcher>)
    requires vm.Valid() && vm.target == null && vm.store == st && c.Valid()
    requires forall n :: n in c.Repr ==> n in S
    requires forall n :: n in c.Repr ==> n.State() == S[n]
    requires Started(vm, st, ws) && SubsFrom(vm, st, subs0, ws)
    modifies vm`target, vm.deps`subs, c.Repr
    ensures vm.Valid() && vm.target == null && vm.store == st && vm.deps == old(vm.deps)
    ensures Covers([c] + Order(c), S)
    ensures ok == AllOk(st, vm.methods, [c] + Order(c), S)
    ensures ok ==> forall n :: n in c.Repr ==> n.State() == NodePass(st, vm.methods, n, S[n]).state
    ensures ok ==> Specs(ws') == Specs(ws) + AllWatches(st, vm.methods, [c] + Order(c), S)
    ensures forall w :: w in ws' ==> w in ws || fresh(w)
    ensures Started(vm, st, ws') && SubsFrom(vm, st, subs0, ws')
    decreases c.Repr, 3
  {
    ghost var ws1;
    var one;
    one, ws1 := CompileOne(vm, c, st, S, subs0, ws);
    ok, ws' := one, ws1;
    if one && |c.children| != 0 {
      ok, ws' := Compile(vm, c, st, S, subs0, ws1);
    }
    ChildAdvance(st, vm.methods, c, S, one, ok, ws, ws1, ws');
    if ok && |c.children| == 0 {
      assert c.Repr == {c};
    }
  }

  /** How compiling `c` and then the nodes below it add up to the nodes `[c] + Order(c)`. */
  lemma ChildAdvance(st: Store, methods: set<string>, c: Node, S: map<Node, NodeState>, one: bool, ok: bool,
                     ws: seq<Watcher>, ws1: seq<Watcher>, ws': seq<Watcher>)
    requires c.Valid() && forall n :: n in c.Repr ==> n in S
    requires one == NodePass(st, methods, c, S[c]).ok
    requires one ==> Specs(ws1) == Specs(ws) + NodePass(st, methods, c, S[c]).watches
    requires !one || |c.children| == 0 ==> ok == one && ws' == ws1
    requires one && |c.children| != 0 ==>
      && Covers(Order(c), S) && ok == AllOk(st, methods, Order(c), S)
      && (ok ==> Specs(ws') == Specs(ws1) + AllWatches(st, methods, Order(c), S))
    ensures Covers([c] + Order(c), S)
    ensures ok == AllOk(st, methods, [c] + Order(c), S)
    ensures ok ==> Specs(ws') == Specs(ws) + AllWatches(st, methods, [c] + Order(c), S)
  {
    OrderBelow(c);
    AllOkAppend(st, methods, [c], Order(c), S);
    AllWatchesAppend(st, methods, [c], Order(c), S);
    assert AllWatches(st, methods, [c], S) == NodePass(st, methods, c, S[c]).watches;
    if |c.children| == 0 {
      assert Order(c) == [] && [c] + Order(c) == [c];
    } else if one {
      Associative(Specs(ws), NodePass(st, methods, c, S[c]).watches, AllWatches(st, methods, Order(c), S));
    }
  }

  /** The child `c` itself: `compileElement` or `compileText`. */
  method CompileOne(vm: MVVM, c: Node, ghost st: Store, ghost S: map<Node, NodeState>,
                    ghost subs0: map<Dep, seq<Watcher>>, ghost ws: seq<Watcher>)
    returns (ok: bool, ghost ws': seq<Watcher>)
    requires vm.Valid() && vm.target == null && vm.store == st
    requires c in S && c.State() == S[c]
    requires Started(vm, st, ws) && SubsFrom(vm, st, subs0, ws)
    modifies vm`target, vm.deps`subs, c`text, c`attrs, c`html, c`value, c`listeners
    ensures vm.Valid() && vm.target == null && vm.store == st
    ensures ok == NodePass(st, vm.methods, c, S[c]).ok
    ensures ok ==> c.State() == NodePass(st, vm.methods, c, S[c]).state
    ensures ok ==> Specs(ws') == Specs(ws) + NodePass(st, vm.methods, c, S[c]).watches
    ensures forall w :: w in ws' ==> w in ws || fresh(w)
    ensures Started(vm, st, ws') && SubsFrom(vm, st, subs0, ws')
  {
    ghost var more;
    ok, more := CompileNode(vm, c);
    forall d | d in vm.deps
      ensures d.subs == subs0[d] + Subscribed(st, ws + more, d)
    {
      SubscribedAppend(st, ws, more, d);
      Associative(subs0[d], Subscribed(st, ws, d), Subscribed(st, more, d));
    }
    SpecsAppend(ws, more);
    ws' := ws + more;
  }

  // ---------------------------------------------------------------------------------------
  // new MVVM(options)
  // ---------------------------------------------------------------------------------------

  /** `new MVVM(options)` when `options.el` selects the element `root`: observe the data, put
      its keys on the instance, then `new Compiler(vm, root)`, which compiles every node below
      `root` from the state it has now. Each watcher the walk creates holds the value its
      expression reads, and each dep's subscribers are exactly the registrations of those
      watchers' first reads. */
  method Setup(fields: map<string, Plain>, methods: set<string>, root: Node)
    returns (vm: MVVM, ok: bool, ghost ws: seq<Watcher>)
    requires root.Valid()
    modifies root.Repr - {root}
    ensures fresh(vm) && vm.Valid() && vm.Proxied() && vm.target == null && vm.methods == methods
    ensures vm.proxied == fields.Keys
    ensures Represents(vm.store, Obj(vm.store.root), PlainObj(fields), vm.store.place.Keys)
    ensures Covers(Order(root), old(States(root.Repr)))
    ensures ok == AllOk(vm.store, methods, Order(root), old(States(root.Repr)))
    ensures ok ==> forall n :: n in root.Repr && n != root ==> n.State() == NodePass(vm.store, methods, n, old(n.State())).state
    ensures ok ==> Specs(ws) == AllWatches(vm.store, methods, Order(root), old(States(root.Repr)))
    ensures forall w :: w in ws ==> fresh(w) && w.vm == vm && GetValue(vm.store, w.expression) == Some(w.oldValue)
    ensures forall d :: d in vm.deps ==> d.subs == Subscribed(vm.store, ws, d)
  {
    ghost var S := States(root.Repr);
    vm := new MVVM(fields, methods);
    ghost var subs0 := map d | d in vm.deps :: d.subs;
    ok, ws := Compile(vm, root, vm.store, S, subs0, []);
    forall d | d in vm.deps
      ensures d.subs == Subscribed(vm.store, ws, d)
    {
      assert subs0[d] == [];
    }
    if ok {
      forall n | n in root.Repr && n != root
        ensures n.State() == NodePass(vm.store, methods, n, old(n.State())).state
      {
        assert n in root.Repr;
      }
    }
  }
}
