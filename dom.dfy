/** Plain-data stand-ins for the DOM objects the script touches: an element is
    its class list and its attribute map; nothing else of the tree is kept. */
module Dom {

  datatype Option<+T> = None | Some(value: T)

  /** An element as the script sees it: `classList` and its attributes. */
  datatype Element = Element(classes: set<string>, attrs: map<string, string>)

  predicate HasClass(e: Element, c: string) { c in e.classes }

  predicate HasAttr(e: Element, a: string) { a in e.attrs }

  /** `getAttribute`: None for a missing attribute. */
  function GetAttr(e: Element, a: string): (r: Option<string>)
    ensures r.Some? <==> HasAttr(e, a)
    ensures r.Some? ==> r.value == e.attrs[a]
  {
    if a in e.attrs then Some(e.attrs[a]) else None
  }

  /** `classList.add` */
  function AddClass(e: Element, c: string): (r: Element)
    ensures r.classes == e.classes + {c} && r.attrs == e.attrs
  {
    e.(classes := e.classes + {c})
  }

  /** `classList.remove` */
  function RemoveClass(e: Element, c: string): (r: Element)
    ensures r.classes == e.classes - {c} && r.attrs == e.attrs
  {
    e.(classes := e.classes - {c})
  }

  /** `setAttribute` */
  function SetAttr(e: Element, a: string, v: string): (r: Element)
    ensures r.classes == e.classes
    ensures r.attrs.Keys == e.attrs.Keys + {a} && r.attrs[a] == v
    ensures forall b :: b in e.attrs && b != a ==> r.attrs[b] == e.attrs[b]
  {
    e.(attrs := e.attrs[a := v])
  }

  /** `removeAttribute` */
  function RemoveAttr(e: Element, a: string): (r: Element)
    ensures r.classes == e.classes
    ensures r.attrs.Keys == e.attrs.Keys - {a}
    ensures forall b :: b in r.attrs ==> r.attrs[b] == e.attrs[b]
  {
    e.(attrs := e.attrs - {a})
  }
}
