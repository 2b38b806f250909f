/**
 * `Updater`: the four ways a binding writes into a node. The DOM converts the value it is
 * given to a string; the callers pass that string.
 */
module Updater {
  import opened Dom

  /** `node.textContent = value`. */
  method Text(node: Node, s: string)
    modifies node`text
    ensures node.State() == Apply(old(node.State()), TextContent(s))
  {
    node.text := s;
  }

  /** `node.setAttribute(name, value)`; `ok` is false when it throws. */
  method Bind(node: Node, name: string, s: string) returns (ok: bool)
    modifies node`attrs
    ensures ok == ValidAttrName(name)
    ensures node.State() == if ok then Apply(old(node.State()), Attribute(name, s)) else old(node.State())
  {
    if !ValidAttrName(name) {
      return false;
    }
    node.attrs := SetAttr(node.attrs, name, s);
    ok := true;
  }

  /** `node.innerHTML = value`. */
  method Html(node: Node, s: string)
    modifies node`html
    ensures node.State() == Apply(old(node.State()), InnerHtml(s))
  {
    node.html := s;
  }

  /** `node.value = value`. */
  method Model(node: Node, s: string)
    modifies node`value
    ensures node.State() == Apply(old(node.State()), InputValue(s))
  {
    node.value := s;
  }
}
