/**
 * The part of the DOM the binding engine touches, as abstract node fields:
 * `textContent`, the attribute list, `innerHTML`, the `value` property and the
 * listeners added with `addEventListener`, over a tree of nodes.
 */
module Dom {
  import opened Wrappers

  /** `nodeType === 1` (an element), or any other node (a text or comment node). */
  datatype Kind = Element | Other

  datatype Attr = Attr(name: string, value: string)

  /** What a listener added by the compiler does: write the input's value back into the
      data (v-model), or call one of the options' methods (v-on). */
  datatype Action = WriteBack(expression: string) | CallMethod(name: string)

  datatype Listener = Listener(event: string, action: Action)

  /** `getAttribute(name)`, `None` for a missing attribute. */
  function GetAttr(attrs: seq<Attr>, name: string): Option<string>
  {
    if attrs == [] then None
    else if attrs[0].name == name then Some(attrs[0].value)
    else GetAttr(attrs[1..], name)
  }

  /** An attribute that reads is one of the list. */
  lemma {:induction false} GetAttrFound(attrs: seq<Attr>, name: string)
    requires GetAttr(attrs, name).Some?
    ensures exists j :: 0 <= j < |attrs| && attrs[j].name == name
  {
    if attrs[0].name != name {
      GetAttrFound(attrs[1..], name);
      var j :| 0 <= j < |attrs[1..]| && attrs[1..][j].name == name;
      assert attrs[j + 1].name == name;
    }
  }

  /** The attribute names, in order. */
  function Names(attrs: seq<Attr>): (ns: seq<string>)
    ensures |ns| == |attrs|
    ensures forall i :: 0 <= i < |attrs| ==> ns[i] == attrs[i].name
  {
    if attrs == [] then [] else [attrs[0].name] + Names(attrs[1..])
  }

  /** A name `setAttribute` accepts: it throws an `InvalidCharacterError` for the empty name. */
  predicate ValidAttrName(name: string)
  {
    name != ""
  }

  /** `setAttribute(name, value)`: an existing attribute keeps its place and takes the new
      value, a new one goes at the end. */
  function SetAttr(attrs: seq<Attr>, name: string, value: string): seq<Attr>
  {
    if attrs == [] then [Attr(name, value)]
    else if attrs[0].name == name then [Attr(name, value)] + attrs[1..]
    else [attrs[0]] + SetAttr(attrs[1..], name, value)
  }

  /** `removeAttribute(name)`. */
  function RemoveAttr(attrs: seq<Attr>, name: string): seq<Attr>
  {
    if attrs == [] then []
    else if attrs[0].name == name then RemoveAttr(attrs[1..], name)
    else [attrs[0]] + RemoveAttr(attrs[1..], name)
  }

  /** After `setAttribute(name, v)`, `getAttribute(name)` is `v` and every other attribute reads as before. */
  lemma {:induction false} GetSetAttr(attrs: seq<Attr>, name: string, value: string, other: string)
    ensures GetAttr(SetAttr(attrs, name, value), name) == Some(value)
    ensures other != name ==> GetAttr(SetAttr(attrs, name, value), other) == GetAttr(attrs, other)
  {
    if attrs != [] && attrs[0].name != name {
      GetSetAttr(attrs[1..], name, value, other);
    }
  }

  /** `setAttribute` keeps the order of the names, adding a new one at the end. */
  lemma {:induction false} NamesSetAttr(attrs: seq<Attr>, name: string, value: string)
    ensures Names(SetAttr(attrs, name, value)) ==
      if name in Names(attrs) then Names(attrs) else Names(attrs) + [name]
  {
    if attrs != [] && attrs[0].name != name {
      NamesSetAttr(attrs[1..], name, value);
      assert Names(attrs) == [attrs[0].name] + Names(attrs[1..]);
    }
  }

  /** After `removeAttribute(name)` the attribute is gone and every other one reads as before. */
  lemma {:induction false} GetRemoveAttr(attrs: seq<Attr>, name: string, other: string)
    ensures GetAttr(RemoveAttr(attrs, name), name) == None
    ensures other != name ==> GetAttr(RemoveAttr(attrs, name), other) == GetAttr(attrs, other)
  {
    if attrs != [] {
      GetRemoveAttr(attrs[1..], name, other);
    }
  }

  /** `removeAttribute` takes out exactly the attributes of that name and keeps the rest in order. */
  lemma {:induction false} RemoveAttrKeeps(attrs: seq<Attr>, name: string)
    ensures name !in Names(RemoveAttr(attrs, name))
    ensures forall a :: a in RemoveAttr(attrs, name) <==> a in attrs && a.name != name
  {
    if attrs != [] {
      RemoveAttrKeeps(attrs[1..], name);
      assert attrs == [attrs[0]] + attrs[1..];
    }
  }

  /** Everything of a node the engine can change. */
  datatype NodeState = NodeState(text: string, attrs: seq<Attr>, html: string, value: string,
                                 listeners: seq<Listener>)

  /** One write of an `Updater` function into a node. */
  datatype Effect = TextContent(s: string) | Attribute(name: string, s: string) | InnerHtml(s: string)
                  | InputValue(s: string)

  function Apply(st: NodeState, e: Effect): NodeState
  {
    match e
    case TextContent(s) => st.(text := s)
    case Attribute(name, s) => st.(attrs := SetAttr(st.attrs, name, s))
    case InnerHtml(s) => st.(html := s)
    case InputValue(s) => st.(value := s)
  }

  /** The state of node `n` after the writes `effs`, made to any nodes in order, starting from `st`. */
  function Replay(n: Node, st: NodeState, effs: seq<(Node, Effect)>): NodeState
    decreases |effs|
  {
    if effs == [] then st
    else
      var prev := Replay(n, st, effs[..|effs| - 1]);
      var last := effs[|effs| - 1];
      if last.0 == n then Apply(prev, last.1) else prev
  }

  /** One more write changes the node it is made to, and no other. */
  lemma ReplaySnoc(n: Node, st: NodeState, effs: seq<(Node, Effect)>, x: (Node, Effect))
    ensures Replay(n, st, effs + [x]) == if x.0 == n then Apply(Replay(n, st, effs), x.1) else Replay(n, st, effs)
  {
    assert (effs + [x])[..|effs|] == effs;
  }

  /** Writes to other nodes leave a node as it was. */
  lemma {:induction false} ReplayOthers(n: Node, st: NodeState, effs: seq<(Node, Effect)>)
    requires forall i :: 0 <= i < |effs| ==> effs[i].0 != n
    ensures Replay(n, st, effs) == st
    decreases |effs|
  {
    if effs != [] {
      ReplayOthers(n, st, effs[..|effs| - 1]);
    }
  }

  /** What `Valid` says about one child: it is a valid tree strictly inside its parent's,
      apart from each of its siblings. */
  lemma ChildFacts(n: Node, i: nat)
    requires n.Valid() && i < |n.children|
    ensures n.children[i].Valid() && n.children[i] in n.children[i].Repr
    ensures n.children[i].Repr < n.Repr && n !in n.children[i].Repr
    ensures forall j :: 0 <= j < |n.children| && j != i ==> n.children[j].Repr !! n.children[i].Repr
  {
    var c := n.children[i];
    assert c.Valid();
    assert n in n.Repr - c.Repr;
    forall j | 0 <= j < |n.children| && j != i
      ensures n.children[j].Repr !! c.Repr
    {
      forall x | x in c.Repr ensures x !in n.children[j].Repr { assert n.Slot[x] == i; }
    }
  }

  class Node {
    const kind: Kind
    var text: string
    var attrs: seq<Attr>
    var html: string
    var value: string
    var listeners: seq<Listener>
    const children: seq<Node>
    /** The node and all of its descendants. */
    ghost const Repr: set<Node>
    /** For each node below this one, the index of the child whose part of `Repr` holds it. */
    ghost const Slot: map<Node, nat>

    /** The nodes form a tree: each child owns its own part of `Repr`, and `Slot` sends every
        node below this one to the one child whose part holds it. */
    ghost predicate Valid()
      decreases Repr
    {
      && this in Repr
      && (forall i :: 0 <= i < |children| ==>
            && children[i] in Repr
            && children[i].Repr <= Repr
            && this !in children[i].Repr
            && children[i].Valid())
      && (forall n :: n in Repr && n != this ==> n in Slot && Slot[n] < |children| && n in children[Slot[n]].Repr)
      && (forall i, n :: 0 <= i < |children| && n in children[i].Repr ==> n in Slot && Slot[n] == i)
    }

    function State(): NodeState
      reads this
    {
      NodeState(text, attrs, html, value, listeners)
    }
  }
}
