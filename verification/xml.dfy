/** The parsed document tree the mapper walks: the part of LINQ to XML it uses. */
module Xml {
  import opened Wrappers

  /** An element: its name, its string value (the `Value` the XML library
      computes for it) and its child elements in document order. */
  datatype Element = Element(name: string, value: string, children: seq<Element>)

  /** The elements of `cs` named `n`, in order. */
  function Named(cs: seq<Element>, n: string): (r: seq<Element>)
    ensures |r| <= |cs|
  {
    if cs == [] then []
    else (if cs[0].name == n then [cs[0]] else []) + Named(cs[1..], n)
  }

  /** `e.Elements(n)`: the children of `e` named `n`, in document order. */
  function Elements(e: Element, n: string): seq<Element>
  {
    Named(e.children, n)
  }

  /** The first element of `cs` named `n`, if any. */
  function FirstNamed(cs: seq<Element>, n: string): (r: Option<Element>)
    ensures r.None? <==> Named(cs, n) == []
    ensures r.Some? ==> r.value == Named(cs, n)[0]
  {
    if cs == [] then None
    else if cs[0].name == n then Some(cs[0])
    else FirstNamed(cs[1..], n)
  }

  /** `e.Element(n)`: the first child of `e` named `n`, or none (`null`). */
  function FirstElement(e: Element, n: string): Option<Element>
  {
    FirstNamed(e.children, n)
  }

  /** `.Select(x => x.Value)`. */
  function Values(es: seq<Element>): seq<string>
  {
    seq(|es|, i requires 0 <= i < |es| => es[i].value)
  }

  /** `e.Element(n)?.Value ?? ""`: the first such child's value, or the empty text. */
  function TextOf(e: Element, n: string): (r: string)
    ensures r == if Elements(e, n) == [] then "" else Elements(e, n)[0].value
  {
    match FirstElement(e, n)
    case Some(c) => c.value
    case None => ""
  }

  /** `Elements` selects by name: it holds exactly the elements of `cs` named `n`. */
  lemma {:induction false} NamedMembers(cs: seq<Element>, n: string)
    ensures forall x :: x in Named(cs, n) <==> x in cs && x.name == n
  {
    if cs != [] {
      NamedMembers(cs[1..], n);
      assert cs == [cs[0]] + cs[1..];
    }
  }

  /** `Elements` keeps document order: the children named `n` of a
      concatenation are those of the first part followed by those of the second. */
  lemma {:induction false} NamedAppend(a: seq<Element>, b: seq<Element>, n: string)
    ensures Named(a + b, n) == Named(a, n) + Named(b, n)
  {
    if a == [] {
      assert a + b == b;
    } else {
      var head := if a[0].name == n then [a[0]] else [];
      assert (a + b)[0] == a[0];
      assert (a + b)[1..] == a[1..] + b;
      NamedAppend(a[1..], b, n);
      assert Named(a + b, n) == head + (Named(a[1..], n) + Named(b, n));
      assert head + (Named(a[1..], n) + Named(b, n)) == (head + Named(a[1..], n)) + Named(b, n);
    }
  }
}
