/**
 * Directive attributes: `isDirective` and the two splits of compileElement,
 * `const [, directive] = name.split('-')` and `const [method, type] = directive.split(':')`,
 * resolved against the handler table of CompileUtil.
 */
module Directives {
  import opened Wrappers
  import opened Strings

  /** The handlers a directive can name, with the subtype each one uses. */
  datatype Directive = Text | Bind(attr: string) | Html | Model | On(event: string)
                     /** `CompileUtil.constructor`, inherited from `Object.prototype`: the call
                         `Object(vm, node, value, type)` returns without touching anything. */
                     | Inherited

  /** `attr.startsWith('v-')`. */
  predicate IsDirective(name: string) {
    StartsWith(name, "v-")
  }

  /** The `method` and `type` the two splits produce; `None` is an undefined `type`. */
  function MethodAndType(name: string): (string, Option<string>)
    requires IsDirective(name)
  {
    assert name == "v" + ['-'] + name[2..];
    SplitAtFirst("v", name[2..], '-');
    var directive := Split(name, '-')[1];
    var parts := Split(directive, ':');
    (parts[0], if |parts| > 1 then Some(parts[1]) else None)
  }

  /** How an undefined `type` reads when used as a name: `String(undefined)`. */
  function TypeName(t: Option<string>): string {
    if t.Some? then t.value else "undefined"
  }

  /** `CompileUtil[method]`: the handler a directive dispatches to, `None` when there is none
      (the source then throws calling `undefined`). */
  function Parse(name: string): (d: Option<Directive>)
    requires IsDirective(name)
  {
    var (m, t) := MethodAndType(name);
    if m == "text" then Some(Text)
    else if m == "bind" then Some(Bind(TypeName(t)))
    else if m == "html" then Some(Html)
    else if m == "model" then Some(Model)
    else if m == "on" then Some(On(TypeName(t)))
    else if m == "constructor" then Some(Inherited)
    else None
  }

  /** The segment between the first and the second `-` of a directive name. */
  function Segment(name: string): string
    requires IsDirective(name)
  {
    TakeUntil(name[2..], '-')
  }

  /** `method` is the segment up to its first `:`, and `type` is what follows that `:` up to
      the next one, undefined when the segment holds no `:`. */
  lemma MethodAndTypeOfSegment(name: string)
    requires IsDirective(name)
    ensures MethodAndType(name).0 == TakeUntil(Segment(name), ':')
    ensures MethodAndType(name).1 ==
      if ':' in Segment(name) then Some(TakeUntil(After(Segment(name), ':'), ':')) else None
  {
    assert name == "v" + ['-'] + name[2..];
    SplitAtFirst("v", name[2..], '-');
    var directive := Split(name, '-')[1];
    assert directive == Split(name[2..], '-')[0];
    SplitHead(name[2..], '-');
    assert directive == Segment(name);
    SplitHead(directive, ':');
    var parts := Split(directive, ':');
    if ':' in directive {
      SplitTail(directive, ':');
      SplitHead(After(directive, ':'), ':');
      assert parts[1] == Split(After(directive, ':'), ':')[0];
    } else {
      SplitNoSeparator(directive, ':');
    }
  }

  /** A name whose segment is just a method and no `:` has an undefined type. */
  lemma PlainSegmentHasNoType(m: string, rest: string)
    requires '-' !in m && ':' !in m
    requires rest == [] || rest[0] == '-'
    ensures IsDirective("v-" + m + rest)
    ensures MethodAndType("v-" + m + rest) == (m, None)
  {
    var name := "v-" + m + rest;
    assert name[..2] == "v-";
    assert name[2..] == m + rest;
    MethodAndTypeOfSegment(name);
    TakeUntilPrefix(m, rest, '-');
    TakeUntilPrefix(m, [], ':');
    assert m + [] == m;
  }

  /** `v-<m>:<t>` followed by nothing or by `-...` parses to method `m` and type `t`. */
  lemma TypedSegment(m: string, t: string, rest: string)
    requires '-' !in m && ':' !in m && '-' !in t && ':' !in t
    requires rest == [] || rest[0] == '-'
    ensures IsDirective("v-" + m + ":" + t + rest)
    ensures MethodAndType("v-" + m + ":" + t + rest) == (m, Some(t))
  {
    var name := "v-" + m + ":" + t + rest;
    var seg := m + ":" + t;
    assert name[..2] == "v-";
    assert name[2..] == seg + rest;
    assert '-' !in seg;
    MethodAndTypeOfSegment(name);
    TakeUntilPrefix(seg, rest, '-');
    assert Segment(name) == seg;
    assert seg == m + [':'] + t && seg == m + ([':'] + t);
    assert seg[|m|] == ':';
    TakeUntilPrefix(m, [':'] + t, ':');
    AfterPrefix(m, t, ':');
    TakeUntilPrefix(t, [], ':');
    assert t + [] == t;
  }

  /** `v-on:<event>-<rest>` listens to `event` (so `v-on:my-event` listens to `my`): the event
      name stops at the second `-`. */
  lemma HyphenatedEventIsCut(event: string, rest: string)
    requires '-' !in event && ':' !in event
    ensures IsDirective("v-on:" + event + "-" + rest)
    ensures Parse("v-on:" + event + "-" + rest) == Some(On(event))
  {
    TypedSegment("on", event, "-" + rest);
    assert "v-" + "on" + ":" + event + ("-" + rest) == "v-on:" + event + "-" + rest;
  }

  /** A segment stops at the first `-`, so the attribute a `v-bind` writes never holds a `-`;
      in particular it is never a directive name. */
  lemma BindTargetHasNoHyphen(name: string)
    requires IsDirective(name) && Parse(name).Some? && Parse(name).value.Bind?
    ensures '-' !in Parse(name).value.attr && !IsDirective(Parse(name).value.attr)
  {
    MethodAndTypeOfSegment(name);
    var seg := Segment(name);
    var attr := Parse(name).value.attr;
    if ':' in seg {
      PiecesKeepCharacters(seg, ':');
      PiecesKeepCharacters(After(seg, ':'), ':');
    } else {
      assert attr == "undefined";
    }
    DirectiveHasHyphen(attr);
  }

  lemma DirectiveHasHyphen(s: string)
    ensures IsDirective(s) ==> '-' in s
  {
    if IsDirective(s) {
      assert s[1] == "v-"[1];
    }
  }
}
