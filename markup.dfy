/** The parsed HTML page as BeautifulSoup presents it to the monitors, and the three
    queries they run on it: `get_text`, `find` and `find_all`. */
module Markup {
  import opened Wrappers
  import opened Strings

  /** A text leaf, or a tag with its name, the values of its `class` attribute, its `href`
      attribute when it has one, and its children in document order. */
  datatype Node =
    | Text(text: string)
    | Element(name: string, classes: seq<string>, href: Option<string>, children: seq<Node>)

  predicate IsElementNamed(n: Node, name: string) {
    n.Element? && n.name == name
  }

  /** `tag.get_text(strip=True)`: every text leaf below the node, stripped, concatenated. */
  function GetText(n: Node): string {
    match n
    case Text(t) => Strip(t)
    case Element(_, _, _, cs) => GetTextAll(cs)
  }

  function GetTextAll(cs: seq<Node>): string {
    if cs == [] then "" else GetText(cs[0]) + GetTextAll(cs[1..])
  }

  /** The text never starts or ends with whitespace: each leaf is stripped, and gluing
      stripped pieces together keeps both ends clean. */
  lemma {:induction false} GetTextUnpadded(n: Node)
    ensures Unpadded(GetText(n))
  {
    match n
    case Text(t) => StripSpec(t);
    case Element(_, _, _, cs) => GetTextAllUnpadded(cs);
  }

  lemma {:induction false} GetTextAllUnpadded(cs: seq<Node>)
    ensures Unpadded(GetTextAll(cs))
  {
    if cs != [] {
      GetTextUnpadded(cs[0]);
      GetTextAllUnpadded(cs[1..]);
      UnpaddedConcat(GetText(cs[0]), GetTextAll(cs[1..]));
    }
  }

  /** `tag.get_text()`: every text leaf below the node, as it is, concatenated. */
  function RawText(n: Node): string {
    match n
    case Text(t) => t
    case Element(_, _, _, cs) => RawTextAll(cs)
  }

  function RawTextAll(cs: seq<Node>): string {
    if cs == [] then "" else RawText(cs[0]) + RawTextAll(cs[1..])
  }

  /** Every node below `n` in document order, `n` itself excluded: what `find` and
      `find_all` search. */
  function Descendants(n: Node): seq<Node> {
    match n
    case Text(_) => []
    case Element(_, _, _, cs) => DescendantsAll(cs)
  }

  function DescendantsAll(cs: seq<Node>): seq<Node> {
    if cs == [] then [] else [cs[0]] + Descendants(cs[0]) + DescendantsAll(cs[1..])
  }

  /** Below a single child lie the child itself, then what lies below it. */
  lemma DescendantsOfOnlyChild(c: Node)
    ensures DescendantsAll([c]) == [c] + Descendants(c)
  {
    assert [c][1..] == [];
  }

  /** The text of a single child is the text of the run holding only it. */
  lemma GetTextOfOnlyChild(c: Node)
    ensures GetTextAll([c]) == GetText(c)
  {
    assert [c][1..] == [];
  }

  /** The match `find(name, class_=cls)` looks for: a `name` tag one of whose classes is `cls`. */
  predicate HasClass(n: Node, name: string, cls: string) {
    n.Element? && n.name == name && cls in n.classes
  }

  /** The first node of `ns` that is a `name` tag of class `cls`, or None when there is none. */
  function FirstWithClass(ns: seq<Node>, name: string, cls: string): (r: Option<Node>)
    ensures r.None? <==> forall k :: 0 <= k < |ns| ==> !HasClass(ns[k], name, cls)
    ensures r.Some? ==> HasClass(r.value, name, cls)
    ensures r.Some? ==> exists k :: 0 <= k < |ns| && ns[k] == r.value
                                   && forall j :: 0 <= j < k ==> !HasClass(ns[j], name, cls)
  {
    if ns == [] then None
    else if HasClass(ns[0], name, cls) then Some(ns[0])
    else
      var r := FirstWithClass(ns[1..], name, cls);
      assert r.Some? ==> exists k :: 0 <= k < |ns| && ns[k] == r.value
                                   && forall j :: 0 <= j < k ==> !HasClass(ns[j], name, cls) by {
        if r.Some? {
          var k :| 0 <= k < |ns| - 1 && ns[1..][k] == r.value
                   && forall j :: 0 <= j < k ==> !HasClass(ns[1..][j], name, cls);
          assert forall j :: 0 <= j < k + 1 ==> !HasClass(ns[j], name, cls) by {
            forall j | 0 <= j < k + 1 ensures !HasClass(ns[j], name, cls) {
              if j > 0 { assert ns[j] == ns[1..][j - 1]; }
            }
          }
        }
      }
      r
  }

  /** `doc.find(name, class_=cls)`: the first descendant of `doc`, in document order, that is
      a `name` tag of class `cls`; None exactly when no descendant is one. */
  function Find(doc: Node, name: string, cls: string): Option<Node> {
    FirstWithClass(Descendants(doc), name, cls)
  }

  /** `find_all(names)` over `ns`: the tags whose name is one of `names`, in their order in `ns`.
      A node is kept exactly when it is such a tag. */
  function WithNames(ns: seq<Node>, names: set<string>): seq<Node> {
    if ns == [] then []
    else (if ns[0].Element? && ns[0].name in names then [ns[0]] else []) + WithNames(ns[1..], names)
  }

  lemma {:induction false} WithNamesSpec(ns: seq<Node>, names: set<string>)
    ensures forall k :: 0 <= k < |WithNames(ns, names)| ==>
              WithNames(ns, names)[k].Element? && WithNames(ns, names)[k].name in names
    ensures forall n :: n in WithNames(ns, names) <==> n in ns && n.Element? && n.name in names
  {
    if ns != [] {
      WithNamesSpec(ns[1..], names);
      var head := if ns[0].Element? && ns[0].name in names then [ns[0]] else [];
      assert WithNames(ns, names) == head + WithNames(ns[1..], names);
      assert forall n :: n in ns <==> n == ns[0] || n in ns[1..];
    }
  }

  /** `find_all` keeps the document order and the multiplicity of the nodes it selects:
      the tags selected from two runs of nodes are those of the first, then those of the
      second. */
  lemma {:induction false} WithNamesAppend(a: seq<Node>, b: seq<Node>, names: set<string>)
    ensures WithNames(a + b, names) == WithNames(a, names) + WithNames(b, names)
  {
    if a == [] {
      assert a + b == b;
    } else {
      assert (a + b)[0] == a[0];
      assert (a + b)[1..] == a[1..] + b;
      WithNamesAppend(a[1..], b, names);
    }
  }

  /** `[e.get_text(strip=True) for e in ns]`. */
  function Texts(ns: seq<Node>): (r: seq<string>)
    ensures |r| == |ns| && forall k :: 0 <= k < |ns| ==> r[k] == GetText(ns[k])
  {
    if ns == [] then [] else [GetText(ns[0])] + Texts(ns[1..])
  }

  /** `[e.get_text() for e in ns]`. */
  function RawTexts(ns: seq<Node>): (r: seq<string>)
    ensures |r| == |ns| && forall k :: 0 <= k < |ns| ==> r[k] == RawText(ns[k])
  {
    if ns == [] then [] else [RawText(ns[0])] + RawTexts(ns[1..])
  }
}
