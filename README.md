# simple-mvvm in Dafny

A model of `my-mvvm.js`, a small data-binding engine for the browser. `new MVVM(options)`
makes the options' `data` reactive with `Observer`. Every key gets a getter and a setter
through `Object.defineProperty`, and every key has its own `Dep` list of watchers. The
engine then defines, for each top-level key, an accessor on the instance that reads and
writes `$data[key]` (`proxyData`). Finally `Compiler`
walks the page below the root element:

- every `v-text`, `v-bind:attr`, `v-html`, `v-model` and `v-on:event` attribute of an
  element is dispatched to its handler in `CompileUtil` and then removed;
- every text node holding a `{{ expression }}` placeholder is compiled by `CompileUtil.text`.

Each handler renders the current value into the node. It also creates a `Watcher`, whose
construction reads the expression while `Dep.target` points at the watcher. That read makes
the getter of every key on the path append the watcher to the key's `Dep`. A later
assignment goes through a setter: it replaces the value, makes a fresh object reactive,
and calls `dep.notify()`. `notify` runs `update()` on every subscribed watcher in order.
An update re-reads the expression and, when the new value is not `===` the old one, runs
the callback, which writes into the node through `Updater`.

Modules:

- `strings.dfy` (`Strings`): `split` on one character and its inverse `join`.
- `interpolation.dfy` (`Interpolation`): the regular expression `/{{(.+?)}}/`. It is a
  scanner that cuts a text into literal pieces and placeholders.
  - `Test` is its `test`; `Subst` is its global `replace`.
- `directives.dfy` (`Directives`): `isDirective`, the two splits of `compileElement`, and
  which handler of `CompileUtil` a name reaches. That includes `constructor`, which is
  inherited from `Object.prototype`.
- `dom.dfy` (`Dom`): a node's text, attribute list, `innerHTML`, `value` and listeners, in a
  class `Node`, over a tree of nodes. Also the writes the engine makes to those fields, and
  a node's state after a sequence of such writes.
- `updater.dfy` (`Updater`): the four `Updater` functions, as methods on `Node`.
- `reactivity.dfy` (`Reactivity`): the reactive data and the `Dep`, `Watcher` and `MVVM`
  classes.
  - The data is a `Store`. Each object has an identity, and each key holds the closure
    variable `value` of its `defineReactive` call and the `Dep` created with it.
  - `getValue` is the function `GetValue`. Its getter side effects are in the method
    `MVVM.Get`.
  - `setValue` and the setter are the methods `SetValue` and `Assign`. `notify` is
    `Dep.Notify`, proved equal to the function `Run` over the watchers' probes.
- `compiler.dfy` (`Compiler`): the handlers, `compileElement`, `compileText`, and the
  recursive `compile` as a loop over each node's children.
  - Each is proved against a function of the initial node states: `ElementFrom`,
    `TextPass`, `NodePass`, and `AllOk` and `AllWatches` over the depth-first `Order`.
  - `Setup` is the constructor of the options object, which observes, proxies and compiles.

## Model

| member | source | states |
|---|---|---|
| Strings.Split | my-mvvm.js:154 | `expression.split('.')` gives at least one key, and no key contains the separator |
| Strings.JoinSplit | my-mvvm.js:154 | joining the keys of a split with the separator gives back the expression |
| Strings.SplitJoin | my-mvvm.js:154 | splitting a join of separator-free keys gives back the keys |
| Strings.SplitNoSeparator | my-mvvm.js:154 | an expression without `.` is a single key |
| Strings.SplitAtFirst | my-mvvm.js:118 | a string cut at its first separator splits into the part before it, then the split of the rest |
| Strings.TakeUntil | my-mvvm.js:118-119 | the part before the first separator holds no separator |
| Strings.SplitHead | my-mvvm.js:118-119 | the first piece of a split is the text up to the first separator |
| Strings.SplitTail | my-mvvm.js:118-119 | when the separator occurs, there are at least two pieces, and the pieces after the first are the split of what follows the first separator |
| Directives.MethodAndTypeOfSegment | my-mvvm.js:118-119 | `method` is the segment between the first and second `-`, cut at its first `:`. `type` is what follows that `:` up to the next one, and undefined when the segment has no `:` |
| Directives.IsDirective | my-mvvm.js:106-108 | `isDirective`: the attribute name starts with `v-` |
| Directives.MethodAndType | my-mvvm.js:118-119 | `name.split('-')[1].split(':')`: `method` is the segment between the first and second `-` up to its first `:`, and `type` what follows up to the next `:`, or undefined when there is none |
| Directives.Parse | my-mvvm.js:118-121 | the handler `CompileUtil[method]` names: `text`, `bind` on the attribute `type`, `html`, `model` and `on` for the event `type`; `constructor`, inherited from `Object.prototype`, which does nothing; and none for any other name, so that the call throws. An undefined `type` is used as the name `undefined` |
| Directives.PlainSegmentHasNoType | my-mvvm.js:118-119 | `v-m`, alone or followed by `-…`, gives method `m` and an undefined type |
| Directives.TypedSegment | my-mvvm.js:118-119 | `v-m:t`, alone or followed by `-…`, gives method `m` and type `t` |
| Directives.HyphenatedEventIsCut | my-mvvm.js:118-119 | `v-on:e-rest`, for an event name `e` without `-` or `:`, listens to `e`: `v-on:my-event` listens to `my`, not `my-event` |
| Directives.BindTargetHasNoHyphen | my-mvvm.js:118-119 | the attribute a `v-bind` writes contains no `-`, so it is never a directive |
| Interpolation.CloseFrom | my-mvvm.js:169 | a body end found from position `n` has `}}` there, lies at or after `n`, and has no line terminator before it |
| Interpolation.Close | my-mvvm.js:169 | the body `(.+?)` is at least one character long, `}}` follows it, and it holds no line terminator |
| Interpolation.Test | my-mvvm.js:129 | the pattern matches at some index of the text: `{{`, a non-empty body without line terminators, then `}}` |
| Interpolation.Scan | my-mvvm.js:169 | the text cut, left to right, into literal characters and placeholders. A placeholder starts at the first `{{` that closes, and the scan resumes after its `}}` |
| Interpolation.Subst | my-mvvm.js:169-171 | the global `replace`: literal characters are kept, and the i-th placeholder is replaced by the i-th callback result |
| Interpolation.CloseFromIsShortest | my-mvvm.js:169 | searching from `n` finds the first possible end of the body; when it finds none, there is none |
| Interpolation.CloseIsShortest | my-mvvm.js:169 | the body is lazy: it ends at the first possible `}}`; when no end is found, no `}}` can close it |
| Interpolation.UnscanScan | my-mvvm.js:169-171 | the scan loses nothing: its pieces, written back out, give the text |
| Interpolation.TestIffHole | my-mvvm.js:129 | `/{{(.+?)}}/.test(t)` holds exactly when the global `replace` finds a placeholder in `t` |
| Interpolation.HoleShape | my-mvvm.js:169 | an inner text is non-empty, holds no line terminator, and holds no `}}` ending before its own end |
| Interpolation.SubstQuotedIsUnscan | my-mvvm.js:169-171 | replacing each placeholder with its own `{{…}}` gives back the pieces' text |
| Interpolation.LiteralsPreserved | my-mvvm.js:169-171 | the `replace` keeps all text outside the placeholders: replacing each placeholder with itself gives back the text |
| Interpolation.NoMatchUnchanged | my-mvvm.js:168-172 | a text the regular expression does not match has no placeholders, and `replace` returns it unchanged |
| Dom.GetSetAttr | my-mvvm.js:235-237 | after `setAttribute(name, v)`, `name` holds `v` and every other attribute is unchanged |
| Dom.SetAttr | my-mvvm.js:236 | `setAttribute`: an existing attribute keeps its place and takes the new value, and a new one goes at the end |
| Dom.NamesSetAttr | my-mvvm.js:235-237 | `setAttribute` keeps the order of the attributes, adding a new name at the end |
| Dom.GetRemoveAttr | my-mvvm.js:123 | after `removeAttribute(name)`, `name` is absent and every other attribute is unchanged |
| Dom.RemoveAttr | my-mvvm.js:123 | `removeAttribute`: every attribute of that name is dropped, and the others keep their order |
| Dom.RemoveAttrKeeps | my-mvvm.js:123 | `removeAttribute(name)` removes exactly the attributes called `name` |
| Dom.ReplaySnoc | my-mvvm.js:73-75 | a write during a notify changes the node it is made to, and no other |
| Dom.ReplayOthers | my-mvvm.js:73-75 | writes made to other nodes leave a node as it was |
| Updater.Text | my-mvvm.js:231-233 | `textContent` is set to the string, and the rest of the node is unchanged |
| Updater.Bind | my-mvvm.js:235-237 | the attribute is set to the string, and the rest of the node is unchanged; `setAttribute` throws on the empty name and leaves the node as it was |
| Reactivity.Show | my-mvvm.js:235-245 | `String(v)`, as `setAttribute`, `innerHTML` and `value` convert a value: a string as it is, an integer in decimal digits with a leading `-` when negative, `true`/`false`, `undefined`, and `[object Object]` for an object |
| Reactivity.TextString | my-mvvm.js:231-233 | what the `textContent` setter stores: `undefined` clears the text, and any other value is `String` of it |
| Updater.Html | my-mvvm.js:239-241 | `innerHTML` is set to the string, and the rest of the node is unchanged |
| Updater.Model | my-mvvm.js:243-245 | `value` is set to the string, and the rest of the node is unchanged |
| Reactivity.LookupSnoc | my-mvvm.js:154-156 | one more key reads that key of the value so far, or stops on an earlier TypeError; it touches that key's getter only when the value so far is an object that has the key |
| Reactivity.Step | my-mvvm.js:155 | `data[key]` through the getter. A key of an object reads its property's value. A missing key, or a key of a primitive other than `undefined`, reads `undefined`. A key of `undefined` is the TypeError `None` |
| Reactivity.Lookup | my-mvvm.js:154-156 | the `reduce` of `getValue` over the keys of a path from a value, one `data[key]` step at a time, stopping with the TypeError of a step on `undefined` |
| Reactivity.Touched | my-mvvm.js:49-52 | the deps whose getters a read of a path runs, in order: one for each key found on an object along the path |
| Reactivity.GetValue | my-mvvm.js:153-157 | `getValue`: the keys of `expression.split('.')` read one after another from `$data`, with `None` for the TypeError |
| Reactivity.LookupStops | my-mvvm.js:154-156 | once a prefix of the path throws, the whole read throws, and no getter further on runs |
| Reactivity.LookupPrefix | my-mvvm.js:154-156 | when a path reads a value, each of its prefixes does |
| Reactivity.LookupPlaced | my-mvvm.js:42-61 | an object read from `$data` along a path is the one `defineReactive` placed at that path |
| Reactivity.TouchedAll | my-mvvm.js:49-52 | reading a path runs the getter of every key on it that exists in an object, so its dep collects the current `Dep.target` |
| Reactivity.TouchedBound | my-mvvm.js:154-156 | reading a path runs at most one getter per key |
| Reactivity.Keys | my-mvvm.js:16 | the keys enumerated from an object are exactly the keys with a property on it |
| Reactivity.DefineClosed | my-mvvm.js:46-60 | `defineProperty` keeps the data a tree, and changes only the key it defines |
| Reactivity.LookupRepresents | my-mvvm.js:34-40 | after `observe`, every path reads from the reactive data a value exactly when it reads one from the options' data, and reading an object gives the reactive copy of the literal object |
| Reactivity.LookupOff | my-mvvm.js:53-59 | an assignment to one key leaves the value of every path that does not go through it unchanged |
| Reactivity.HoleStringsSpec | my-mvvm.js:168-172 | the replacements exist exactly when every placeholder's expression reads, and each one is `String` of its value |
| Reactivity.ContentValue | my-mvvm.js:168-172 | `getContentValue`: the raw text with each placeholder replaced by `String` of the value its inner text reads, or `None` when a read throws |
| Reactivity.HoleStringsSome | my-mvvm.js:168-172 | the replacements exist exactly when every placeholder's expression reads |
| Reactivity.HoleStringsValues | my-mvvm.js:168-172 | when the replacements exist, each one is `String` of the value its expression reads |
| Reactivity.ContentWithoutPlaceholders | my-mvvm.js:168-172 | `getContentValue` returns a text without placeholders unchanged |
| Reactivity.HoleStringsStops | my-mvvm.js:169-171 | once one placeholder's read throws, the whole `replace` throws |
| Reactivity.HoleStrings | my-mvvm.js:169-171 | the values the `replace` callback returns, `String` of each placeholder's read in order, or `None` when one read throws |
| Reactivity.ReadsBefore | my-mvvm.js:176-184 | how far the `replace` of a text gets: every placeholder before the position reads, and the one at it, if any, throws |
| Reactivity.ReadsBeforeAll | my-mvvm.js:168-184 | the replacements exist exactly when the `replace` gets through every placeholder |
| Reactivity.Outcome | my-mvvm.js:89-95 | `update()` throws exactly when the read throws, or when the value changed and the callback throws. It does nothing exactly when the value is `===` the old one. Otherwise it runs the callback with the new value |
| Reactivity.CallbackEffect | my-mvvm.js:178-214 | the node write of each kind of watcher callback for a new value: `textContent` of the value, or of the whole text recomputed by `getContentValue`; the attribute, `innerHTML` or `value` set to `String` of it. `None` when the recomputation or `setAttribute` throws |
| Reactivity.RunSettles | my-mvvm.js:73-75 | after a notify with no exception, every watcher reads a value, and that value equals its `oldValue` or its callback ran; the callbacks run once per changed watcher, at its first place in the list |
| Reactivity.Run | my-mvvm.js:73-75 | `notify`'s `forEach`: each subscribed watcher's `update()` in list order. A watcher fires when its read differs from its current `oldValue`, which then takes the new value. The round stops at the first read or callback that throws |
| Reactivity.RunQuiet | my-mvvm.js:89-95 | a notify where no watcher's value changed runs no callback and writes nothing |
| Reactivity.RunEffects | my-mvvm.js:73-75 | each node write of a notify is the callback of a fired watcher, for the value it read, in firing order |
| Reactivity.RunTwice | my-mvvm.js:69-75 | a watcher appended twice fires once: its second update finds its new `oldValue` |
| Reactivity.Dep.constructor | my-mvvm.js:65-67 | a new dep has no watchers |
| Reactivity.Dep.Append | my-mvvm.js:69-71 | the watcher is added at the end of `subs` |
| Reactivity.Dep.Notify | my-mvvm.js:73-75 | the loop is the round `Run` over `subs`. A watcher's `oldValue` changes, to what it reads, exactly when it fired. Each node ends as its old state with the round's writes applied. The data does not change |
| Reactivity.Visit | my-mvvm.js:74 | one `update()` inside the loop advances the round by one watcher, or ends it on an exception |
| Reactivity.Watcher.constructor | my-mvvm.js:79-87 | `oldValue` is the expression's value, `Dep.target` is null again, and every dep gains the watcher once per getter of it that the read ran |
| Reactivity.Watcher.Update | my-mvvm.js:89-95 | `ok`, the new `oldValue` and the node agree with `Outcome`: the callback runs, and `oldValue` changes, exactly when the value changed |
| Reactivity.Watcher.Callback | my-mvvm.js:178-214 | the callback writes its effect into the watcher's node, or throws and writes nothing |
| Reactivity.MVVM.SetTarget | my-mvvm.js:84-86 | `Dep.target` is set, and the data is unchanged |
| Reactivity.MVVM.ReadKey | my-mvvm.js:49-52 | `data[key]` through the getter. While `Dep.target` is set, the key's dep gains the target; otherwise nothing changes |
| Reactivity.MVVM.Get | my-mvvm.js:153-157 | the result is `GetValue`. Every dep whose getter ran gains `Dep.target`, once per getter run |
| Reactivity.MVVM.ReadPath | my-mvvm.js:154-156 | the `reduce` over the keys of a path, with no target set, computes `Lookup` |
| Reactivity.MVVM.GetContentValue | my-mvvm.js:168-172 | the result is `ContentValue`, or `None` when a placeholder's read throws |
| Reactivity.MVVM.constructor | my-mvvm.js:1-13 | the instance's data is the reactive copy of the options' data, every top-level key is proxied, and no dep has a watcher yet |
| Reactivity.MVVM.ProxyData | my-mvvm.js:15-26 | the keys proxied are the top-level keys of the data |
| Reactivity.MVVM.DefineProperty | my-mvvm.js:46-60 | the key holds the value with a fresh dep that has no watchers; other keys are unchanged |
| Reactivity.MVVM.Observe | my-mvvm.js:34-40 | the value is the reactive copy of the literal, placed at its path, built from fresh objects and deps; every property of its objects has one of the new deps, and each new dep has no subscribers |
| Reactivity.MVVM.ObserveFields | my-mvvm.js:36-38 | every key of the literal object is made reactive on the object, and its value is the key's reactive copy; every property of the object and of the objects below it has one of the new deps, and each new dep has no subscribers |
| Reactivity.MVVM.DefineReactive | my-mvvm.js:42-61 | the key holds the reactive copy of the value, with a fresh dep; other keys are unchanged; every property of the objects of the copy has one of the new deps, and each new dep has no subscribers |
| Reactivity.MVVM.Replace | my-mvvm.js:53-57 | the key is rebound to the reactive copy of the new value; every path not through it is unchanged. A primitive keeps the key's dep; an object gets a fresh one. Every property of an object of the copy has a fresh dep with no subscribers |
| Reactivity.MVVM.Assign | my-mvvm.js:53-59 | the setter: `Replace`, then the old dep's round over its old subscribers, with each watcher's `oldValue` and each node as in `Dep.Notify`. The key's dep is kept for a primitive and fresh for an object, and every property of an object of the copy has a fresh dep with no subscribers |
| Reactivity.MVVM.SetValue | my-mvvm.js:159-166 | `setValue` writes the last key of the path. The path then reads the new value, other paths are unchanged, and the notify round runs; `None` stands for the exception that escapes when an update throws. The written key's dep is kept for a primitive and fresh for an object, and every property of an object of the new copy has a fresh dep with no subscribers |
| Reactivity.MVVM.ProxyGet | my-mvvm.js:18-20 | `vm[key]` reads `$data[key]` through its getter |
| Reactivity.MVVM.ProxySet | my-mvvm.js:21-23 | `vm[key] = v` assigns `$data[key]` through its setter, with the same round. The key's dep is kept for a primitive and fresh for an object, and every property of an object of the copy has a fresh dep with no subscribers |
| Reactivity.MVVM.OnInput | my-mvvm.js:217-219 | the `input` listener of `v-model` writes the input's string into the data, and notifies, through the same dep |
| Compiler.HandleText | my-mvvm.js:174-192 | the node ends as `Render(Text)`, or is unchanged when a read throws. On success the watchers are one per placeholder, or one for the whole text; when a read throws they are those created before it, as `Made`. The deps gain exactly what those watchers read |
| Compiler.HandlePlainText | my-mvvm.js:185-191 | one watcher on the whole text, or none when the read throws; `textContent` is `String` of its value |
| Compiler.WatchHoles | my-mvvm.js:176-184 | the substituted text is `getContentValue` of the raw text, with one watcher per placeholder, in order; when a read throws, one watcher per placeholder before it (`Made`) |
| Compiler.WatchHole | my-mvvm.js:177-183 | one `replace` callback: a watcher on the placeholder, and `String` of its value added to the replacements; when the read throws, no watcher, and the whole `replace` throws |
| Compiler.HoleWatcher | my-mvvm.js:178 | the `new Watcher` of one placeholder: a fresh watcher on the placeholder's expression with the whole-text callback; each dep gains it once per getter run by its read |
| Compiler.HandleBind | my-mvvm.js:194-200 | the attribute is set to `String` of the value, and there is one `BindView` watcher. When the read throws there is none. When `setAttribute` throws on the empty name, the node is unchanged and the one watcher has been created and stays subscribed: the watchers are `Made` on every path |
| Compiler.HandleHtml | my-mvvm.js:202-208 | `innerHTML` is set to `String` of the value, and there is one `HtmlView` watcher; none when the read throws |
| Compiler.HandleModel | my-mvvm.js:210-220 | `value` is set, there is one `ModelView` watcher, and an `input` listener writes back to the expression; when the read throws, no watcher and no listener |
| Compiler.HandleOn | my-mvvm.js:222-227 | a listener for the event calls the method when `$methods` has it; otherwise the node is unchanged |
| Compiler.Dispatch | my-mvvm.js:121 | `CompileUtil[method]` for each handler: the node as `Render`, the watchers as `Watches` on success and as `Made` on every path, and the deps' new subscribers |
| Compiler.Made | my-mvvm.js:174-227 | the watchers a handler has created when it returns or throws: for a text with placeholders, one per placeholder before the first read that throws; for `bind`, `html`, `model` and a text without placeholders, one when the read succeeds, for `bind` also when `setAttribute` then throws; none for `on` |
| Compiler.MadeOnSuccess | my-mvvm.js:174-227 | a handler that returns has created exactly the watchers `Watches` lists |
| Compiler.Watches | my-mvvm.js:174-227 | the watchers each handler creates, as expression and callback: one per placeholder for a text with placeholders, each of which recomputes the whole text; one for a text without, for `bind`, `html` and `model`; none for `on` and `constructor` |
| Compiler.Render | my-mvvm.js:174-227 | the node after a handler's first render and listeners: the text, attribute, inner HTML or value set to `String` of the value read, and the `input` listener for `model`. `on` adds a listener only for a method of `$methods`. `None` when a read throws, or when `setAttribute` rejects the empty name of `v-bind:` |
| Compiler.RenderAttrs | my-mvvm.js:194-200 | a handler changes no attribute except the one a `v-bind` targets |
| Compiler.ElementCleans | my-mvvm.js:115-125 | from position `i`, each directive still to come, or already absent, is gone afterwards; an attribute no directive targets is unchanged |
| Compiler.CompileElementCleans | my-mvvm.js:114-126 | after `compileElement`, the element has no `v-` attribute left, and every non-directive attribute that no `v-bind` targets is unchanged |
| Compiler.ElementFrom | my-mvvm.js:115-125 | the `forEach` over the attribute snapshot from position `i`. A name without `v-` is passed over. A missing handler or a throwing one ends the pass with an exception in the node's current state; the watchers are then those so far plus what the throwing handler created (`Made`). Otherwise the handler renders, the attribute is removed, and its watchers are added |
| Compiler.TextWatchers | my-mvvm.js:174-192 | a text with placeholders gets one watcher per placeholder, on its inner text. Each watcher's callback writes exactly what the first render wrote, and throws exactly when the first render would |
| Compiler.CompileElement | my-mvvm.js:114-126 | the loop over the attribute snapshot ends as `ElementFrom`: the node's state, whether an exception escaped, and the watchers created, also when it throws |
| Compiler.CompileAttr | my-mvvm.js:115-124 | one attribute of the snapshot advances `ElementFrom` by one position, or ends it on an exception with its state and watchers |
| Compiler.CompileDirective | my-mvvm.js:118-123 | a directive attribute runs its handler and, unless the handler throws, is removed; the walk over the attributes then goes on from the next one, and a throw ends it in the handler's state with the watchers the handler created added |
| Compiler.CompileText | my-mvvm.js:128-132 | `compileText` ends as `TextPass`, node state, exception and watchers: a text with a placeholder is compiled by `text`, and any other is left alone |
| Compiler.TextPass | my-mvvm.js:128-132 | `compileText`: a text the pattern matches is rendered by `text` with one watcher per placeholder, or throws with the watchers of the placeholders before the failing read; any other node is left alone |
| Compiler.NodePass | my-mvvm.js:138-144 | one node of the walk: `compileElement` from the start of its attribute list for an element, `compileText` for any other node |
| Compiler.CompileNode | my-mvvm.js:138-144 | an element goes through `compileElement`, and any other node through `compileText`, as `NodePass`, also for the watchers when it throws |
| Compiler.OrderBelow | my-mvvm.js:134-149 | the depth-first order of the walk holds only nodes below the root |
| Compiler.Order | my-mvvm.js:134-149 | the order in which `compile(el)` visits nodes: each child, then, when it has children, the nodes below it, child after child |
| Compiler.OrderFromBelow | my-mvvm.js:136-148 | the nodes visited from child `i` on all lie below the root |
| Compiler.OrderToFrom | my-mvvm.js:136-148 | the nodes visited before child `i`, followed by those visited from child `i` on, are the whole walk |
| Compiler.AllOkAppend | my-mvvm.js:136-148 | the walk over two parts succeeds exactly when the walk over each part does |
| Compiler.AllWatchesAppend | my-mvvm.js:136-148 | the watchers of the walk over two parts are those of the first part, then those of the second |
| Compiler.Compile | my-mvvm.js:134-149 | `compile(el)` visits every node below `el` in depth-first order. It succeeds exactly when every `NodePass` does. On success, every node ends in its `NodePass` state and the watchers are all those passes', in order. The deps gain exactly what the watchers read |
| Compiler.WalkStep | my-mvvm.js:136-148 | one child of the `forEach`, with its whole subtree, extends the visited prefix of the order |
| Compiler.WalkAdvance | my-mvvm.js:136-148 | when the nodes before a child all compiled, the child and its subtree extend them: success of the longer prefix is success of both parts, with the watchers concatenated, and a throw in the child means the whole walk throws |
| Compiler.WalkSplit | my-mvvm.js:136-148 | the order of the walk cut at child `i`: the nodes before it, the child and its subtree, then the nodes after it |
| Compiler.CompileChild | my-mvvm.js:137-147 | a child is compiled, then its own children when it has any |
| Compiler.CompileOne | my-mvvm.js:138-144 | one node compiled from its initial state ends as its `NodePass` |
| Compiler.Setup | my-mvvm.js:1-13 | `new MVVM(options)` with a root element: the observed and proxied data, then `new Compiler(vm, el)` over the page. Every watcher holds its current value, and every dep holds exactly the watchers whose reads ran its getter |

## Left out

- `document.querySelector(options.el)` is not modelled: `Setup` takes the root node. The branch where no element matches, and the instance stays unobserved, is not modelled.
- Events are not delivered. A `v-on` listener is recorded by the method's name, and the user methods do not run. The `input` listener of `v-model` is the method `MVVM.OnInput`, given the input's string.
- `Watcher.update` reads the free variable `vm` (line 90), not `this.vm`. In a browser this works only when a global `vm` happens to name the same instance. The model reads `this.vm`.
- `Object.defineProperty` is modelled by its effect on the store, not as property descriptors. Getters on the instance are `ProxyGet` and `ProxySet`. `configurable` and `enumerable` are not modelled.
- `null`, arrays, functions and numbers other than the safe integers (`Number.MIN_SAFE_INTEGER` to `Number.MAX_SAFE_INTEGER`) are not values of the model. Beyond that range, distinct integers can be one double, and `String` can switch to exponent form. `typeof null === 'object'` would make `observe` throw, and array mutators are not reactive in the source either.
- A key missing on a data object is modelled as reading `undefined`. The source's `data[key]` goes on to `Object.prototype`, so `{{constructor}}` or `a.toString` reads an inherited function, not `undefined`; inherited properties of the data are not modelled.
- Reading a key of a primitive other than `undefined` is modelled as `undefined`. A string's `length`, its indices and the methods of `String.prototype` are not modelled.
- `v-if` and `v-show` are not part of this model: the source has them only as a to-do.
- The children of a node are fixed: a `textContent` or `innerHTML` write does not remove or add child nodes. The walk's `forEach` over a live `childNodes` list is not modelled.
- The data is kept as store entries, not as heap objects: two keys can never share one object, so assigning an object that is already reactive (aliasing) is not modelled. A value is always written as a fresh literal, `Plain`.
- Reactivity.MVVM.SetValue: requires the path to lead to an existing key (`Writable`). The source's creation of a new, non-reactive key, and its TypeError on a missing intermediate object, are not modelled.
- Reactivity.Show: `String` of an object is always `[object Object]` in the model. A data object with its own `toString` key is not modelled: with `{a: {toString: "x"}}`, `String(a)` throws a TypeError, because `toString` cannot be called and `Object.prototype.valueOf` returns the object itself.
- Reactivity.MVVM.OnInput: inherits the `Writable` requires of `SetValue` (an intermediate path that is missing is not modelled), and receives the input's string as a parameter.
- Compiler.HandlePlainText: reads the text's value before it creates the watcher; the source creates the watcher first. When the read throws, the source's watcher has already been appended to the deps read so far and `Dep.target` stays set; the model creates no watcher.
- Compiler.WatchHoles: reads each placeholder before it creates its watcher; the source creates it first. When a read throws, the source has also created the failing placeholder's watcher, appended it to the deps read so far, and left `Dep.target` set; the model has only the watchers of the placeholders before it.
- Compiler.WatchHole: reads the placeholder before it creates its watcher; the source creates it first, so on a throwing read the source has one more watcher, subscribed to the deps read so far, and `Dep.target` stays set.
- Compiler.Made: lists the watchers the model creates. On a throwing read of a text, the source has also created the watcher of the failing placeholder, or of the whole plain text; `Made` does not list it.
- Compiler.HandleText: for both kinds of text, the model reads the value before it creates the watcher, and the source creates the watcher first. The two agree when the read succeeds. When it throws, the source has already appended the new watcher to the deps read so far and leaves `Dep.target` set; the model creates no watcher.
- Compiler.Compile: after an exception, the walk states that it happened, that every watcher in `ws` was there before or is new and holds its current value, and that the deps' subscribers are what those watchers read. Which watchers they are, and the state of the nodes visited before the exception, are stated per node (`CompileNode` through `NodePass`, with `Made` for the node that throws), not for the walk.
- Compiler.Setup: after an exception in the walk, states as much as `Compile` does and no more.
- Reactivity.MVVM.constructor: a data key named `$data`, `$methods`, `$el` or `$options` is not modelled as taking over that field of the instance. In the source, `proxyData` (lines 15-26) runs before `new Compiler` (line 11) and redefines such a key as a getter for the data's key, so `getValue` (lines 154-156) and `on` (line 223) then read the key's value: with data `{$data: {a: 1}, a: 2}`, `{{a}}` renders as `1`. The model keeps the fields apart from the proxied keys and renders `2`.
- Reactivity.MVVM.constructor: the options' data is always an object. A missing or non-object `options.data`, for which `observe` and `proxyData` do nothing and every `getValue` throws a TypeError, is not modelled.
- Compiler.Setup: takes the data of the constructor, so a data key that shadows an instance field, and a missing data object, are not modelled here either.
- Directives.Parse: assumes the browser has lowercased attribute names. Of the names on `Object.prototype`, `constructor` and `__proto__` are all lowercase. `CompileUtil.constructor` is `Object`, which accepts the call and does nothing: the model gives it a handler that does nothing. `CompileUtil.__proto__` is `Object.prototype`, which is not callable and throws like a missing handler, as every other unknown name does in the model.
- Dom.ValidAttrName: `setAttribute` throws for every name that is not a valid attribute name; the model rejects only the empty name, the one a `v-bind:` without a target gives.
- Compiler.HandleOn: the test `vm.$methods && vm.$methods[expression]` is modelled as membership in the set of method names. Inherited names and methods with falsy values are not modelled.
- `{{ expression }}` with spaces around the expression is not trimmed: the code reads the key with its spaces, which is what the model does.
- The `Slot` and `Repr` of the node tree are ghost bookkeeping; the DOM itself has no such fields.
- Compiler.CompileElementCleans: an attribute that a `v-bind` targets may be overwritten, and the lemma states nothing about it.
