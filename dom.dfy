/** The slice of the browser document the page script touches: elements with a
    class list, markup-supplied attributes, inline style properties and
    content, and the "one of a group is marked" update the script performs on
    filter buttons, time slots and sidebar links alike. */
module Dom {
  import opened Wrappers

  /** The class that marks the chosen member of a group: the current
      navigation link, the pressed filter button, the open menu's button and
      the current sidebar link. */
  const Active: string := "active"

  class Element {
    /** `classList` */
    var classes: set<string>
    /** The attributes the markup supplies; the script only reads them. */
    const attributes: map<string, string>
    /** Inline `style` properties, by CSS property name. */
    var style: map<string, string>
    /** `textContent` / `innerHTML`. */
    var content: string

    constructor (classes: set<string>, attributes: map<string, string>, content: string)
      ensures this.classes == classes && this.attributes == attributes
      ensures this.style == map[] && this.content == content
    {
      this.classes := classes;
      this.attributes := attributes;
      this.style := map[];
      this.content := content;
    }

    /** `getAttribute(name)`: `None` plays the part of `null`. */
    function Attr(name: string): (r: Option<string>)
      ensures r.Some? <==> name in attributes
      ensures r.Some? ==> r.value == attributes[name]
    {
      if name in attributes then Some(attributes[name]) else None
    }
  }

  /** The class list after `remove(c)` followed, when `on`, by `add(c)`:
      `c` is present exactly when `on`, and every other class is untouched. */
  function WithClass(cs: set<string>, c: string, on: bool): (r: set<string>)
    ensures c in r <==> on
    ensures r - {c} == cs - {c}
  {
    if on then cs + {c} else cs - {c}
  }

  /** Setting the class twice to the same state is setting it once. */
  lemma WithClassIdempotent(cs: set<string>, c: string, on: bool)
    ensures WithClass(WithClass(cs, c, on), c, on) == WithClass(cs, c, on)
  {
  }

  /** Removes `cls` from every element of `group`, then adds it to `chosen`:
      afterwards `chosen` is the only member of the group that carries `cls`,
      and no other class of any element has changed. */
  method SelectOnly(group: seq<Element>, chosen: Element, cls: string)
    requires chosen in group
    modifies group
    ensures forall e :: e in group ==> e.classes == WithClass(old(e.classes), cls, e == chosen)
    ensures forall e :: e in group ==> (cls in e.classes <==> e == chosen)
    ensures forall e :: e in group ==> e.style == old(e.style) && e.content == old(e.content)
  {
    var i := 0;
    while i < |group|
      invariant 0 <= i <= |group|
      invariant forall e :: e in group[..i] ==> e.classes == old(e.classes) - {cls}
      invariant forall e :: e in group && e !in group[..i] ==> e.classes == old(e.classes)
      invariant forall e :: e in group ==> e.style == old(e.style) && e.content == old(e.content)
    {
      group[i].classes := group[i].classes - {cls};
      assert group[..i + 1] == group[..i] + [group[i]];
      i := i + 1;
    }
    assert group[..i] == group;
    chosen.classes := chosen.classes + {cls};
  }
}
