/** The parsed HTML tree the splitter works on, and how it serialises.

    A node is either a run of text or an element. The document root is an
    element whose `hidden` flag is set: it serialises to its children only,
    with no tag of its own. An element whose `canBeEmpty` flag is set (a void
    element such as `br`) serialises in the short form `<br/>` while it has
    no children.
 */
module Html {

  /** One attribute, written ` key="value"` inside the opening tag. */
  datatype Attr = Attr(key: string, value: string)

  datatype Node =
    | Text(text: string)
    | Element(name: string, attrs: seq<Attr>, canBeEmpty: bool, hidden: bool, children: seq<Node>)

  /* ---------- serialisation ---------- */

  function AttrsText(attrs: seq<Attr>): string
  {
    if attrs == [] then ""
    else " " + attrs[0].key + "=\"" + attrs[0].value + "\"" + AttrsText(attrs[1..])
  }

  /** The text of a node, as `str()` of the node gives it. */
  function Serialize(n: Node): string
    decreases n
  {
    match n
    case Text(t) => t
    case Element(name, attrs, canBeEmpty, hidden, cs) =>
      if hidden then SerializeAll(cs)
      else if canBeEmpty && cs == [] then "<" + name + AttrsText(attrs) + "/>"
      else "<" + name + AttrsText(attrs) + ">" + SerializeAll(cs) + "</" + name + ">"
  }

  function SerializeAll(cs: seq<Node>): string
    decreases cs
  {
    if cs == [] then "" else SerializeAll(cs[..|cs| - 1]) + Serialize(cs[|cs| - 1])
  }

  /* ---------- serialised length, computed without building the text ---------- */

  function AttrsLen(attrs: seq<Attr>): nat
  {
    if attrs == [] then 0 else |attrs[0].key| + |attrs[0].value| + 4 + AttrsLen(attrs[1..])
  }

  /** `len(str(n))`. */
  function SerLen(n: Node): nat
    decreases n
  {
    match n
    case Text(t) => |t|
    case Element(name, attrs, canBeEmpty, hidden, cs) =>
      if hidden then ChildrenLen(cs)
      else if canBeEmpty && cs == [] then |name| + AttrsLen(attrs) + 3
      else 2 * |name| + AttrsLen(attrs) + 5 + ChildrenLen(cs)
  }

  function ChildrenLen(cs: seq<Node>): nat
    decreases cs
  {
    if cs == [] then 0 else ChildrenLen(cs[..|cs| - 1]) + SerLen(cs[|cs| - 1])
  }

  lemma {:induction false} AttrsLenIsLength(attrs: seq<Attr>)
    ensures |AttrsText(attrs)| == AttrsLen(attrs)
  {
    if attrs != [] {
      AttrsLenIsLength(attrs[1..]);
    }
  }

  /** The arithmetic length agrees with the serialised text. */
  lemma {:induction false} SerLenIsLength(n: Node)
    ensures |Serialize(n)| == SerLen(n)
    decreases n
  {
    match n
    case Text(_) =>
    case Element(name, attrs, canBeEmpty, hidden, cs) =>
      AttrsLenIsLength(attrs);
      ChildrenLenIsLength(cs);
  }

  lemma {:induction false} ChildrenLenIsLength(cs: seq<Node>)
    ensures |SerializeAll(cs)| == ChildrenLen(cs)
    decreases cs
  {
    if cs != [] {
      ChildrenLenIsLength(cs[..|cs| - 1]);
      SerLenIsLength(cs[|cs| - 1]);
    }
  }

  lemma {:induction false} ChildrenLenConcat(a: seq<Node>, b: seq<Node>)
    ensures ChildrenLen(a + b) == ChildrenLen(a) + ChildrenLen(b)
    decreases |b|
  {
    if b != [] {
      assert (a + b)[..|a + b| - 1] == a + b[..|b| - 1];
      ChildrenLenConcat(a, b[..|b| - 1]);
    } else {
      assert a + b == a;
    }
  }

  /** Appending a child to an element adds exactly the child's length,
      unless the element was in its short void form. */
  lemma SerLenAppend(n: Node, x: Node)
    requires n.Element? && (!n.canBeEmpty || n.hidden || n.children != [])
    ensures SerLen(n.(children := n.children + [x])) == SerLen(n) + SerLen(x)
  {
    var cs := n.children + [x];
    assert cs[..|cs| - 1] == n.children;
  }

  /* ---------- counting nodes and collecting text ---------- */

  /** The number of nodes in the subtree rooted at `n`. */
  function Count(n: Node): nat
    decreases n
  {
    match n
    case Text(_) => 1
    case Element(_, _, _, _, cs) => 1 + CountAll(cs)
  }

  function CountAll(cs: seq<Node>): nat
    decreases cs
  {
    if cs == [] then 0 else CountAll(cs[..|cs| - 1]) + Count(cs[|cs| - 1])
  }

  lemma {:induction false} CountAllConcat(a: seq<Node>, b: seq<Node>)
    ensures CountAll(a + b) == CountAll(a) + CountAll(b)
    decreases |b|
  {
    if b != [] {
      assert (a + b)[..|a + b| - 1] == a + b[..|b| - 1];
      CountAllConcat(a, b[..|b| - 1]);
    } else {
      assert a + b == a;
    }
  }

  lemma CountAllCons(x: Node, rest: seq<Node>)
    ensures CountAll([x] + rest) == Count(x) + CountAll(rest)
  {
    CountAllConcat([x], rest);
    assert [x][..0] == [];
  }

  /** The count of a list, split around its element `k`. */
  lemma CountAllSplice(cs: seq<Node>, k: nat)
    requires k < |cs|
    ensures CountAll(cs) == CountAll(cs[..k]) + Count(cs[k]) + CountAll(cs[k + 1..])
  {
    assert cs == cs[..k] + cs[k..];
    CountAllConcat(cs[..k], cs[k..]);
    assert cs[k..] == [cs[k]] + cs[k + 1..];
    CountAllCons(cs[k], cs[k + 1..]);
  }

  lemma CountAllPositive(cs: seq<Node>)
    requires cs != []
    ensures CountAll(cs) > 0
  {
  }

  /** The text leaves of a subtree, in document order. */
  function Leaves(n: Node): seq<string>
    decreases n
  {
    match n
    case Text(t) => [t]
    case Element(_, _, _, _, cs) => LeavesAll(cs)
  }

  function LeavesAll(cs: seq<Node>): seq<string>
    decreases cs
  {
    if cs == [] then [] else LeavesAll(cs[..|cs| - 1]) + Leaves(cs[|cs| - 1])
  }

  lemma {:induction false} LeavesAllConcat(a: seq<Node>, b: seq<Node>)
    ensures LeavesAll(a + b) == LeavesAll(a) + LeavesAll(b)
    decreases |b|
  {
    if b != [] {
      assert (a + b)[..|a + b| - 1] == a + b[..|b| - 1];
      LeavesAllConcat(a, b[..|b| - 1]);
    } else {
      assert a + b == a;
    }
  }

  /** Every element in the subtree has content and no void short form. */
  ghost predicate Dense(n: Node)
    decreases n
  {
    match n
    case Text(_) => true
    case Element(_, _, canBeEmpty, _, cs) =>
      cs != [] && !canBeEmpty && forall i | 0 <= i < |cs| :: Dense(cs[i])
  }

  /** Every child of `n` is dense (the root itself may be empty). */
  ghost predicate ChildrenDense(n: Node)
    requires n.Element?
  {
    !n.canBeEmpty && forall i | 0 <= i < |n.children| :: Dense(n.children[i])
  }

  /* ---------- Python's str.strip() ---------- */

  /** The characters Python's `str.isspace` accepts. */
  predicate IsSpace(c: char)
  {
    || '\t' <= c <= '\r' || '\U{1c}' <= c <= ' '
    || c == '\U{85}' || c == '\U{a0}' || c == '\U{1680}'
    || '\U{2000}' <= c <= '\U{200a}' || c == '\U{2028}' || c == '\U{2029}'
    || c == '\U{202f}' || c == '\U{205f}' || c == '\U{3000}'
  }

  function StripLeft(s: string): (r: string)
    ensures |r| <= |s| && r == s[|s| - |r|..]
    ensures forall i | 0 <= i < |s| - |r| :: IsSpace(s[i])
    ensures r == [] || !IsSpace(r[0])
  {
    if s != [] && IsSpace(s[0]) then StripLeft(s[1..]) else s
  }

  function StripRight(s: string): (r: string)
    ensures |r| <= |s| && r == s[..|r|]
    ensures forall i | |r| <= i < |s| :: IsSpace(s[i])
    ensures r == [] || !IsSpace(r[|r| - 1])
  {
    if s != [] && IsSpace(s[|s| - 1]) then StripRight(s[..|s| - 1]) else s
  }

  /** `r` is the slice of `s` at `i`, with only white space before and after it. */
  predicate SliceBetweenSpaces(s: string, r: string, i: int)
  {
    && 0 <= i <= |s| - |r|
    && r == s[i..i + |r|]
    && (forall j | 0 <= j < i :: IsSpace(s[j]))
    && (forall j | i + |r| <= j < |s| :: IsSpace(s[j]))
  }

  /** `s.strip()`: the longest slice of `s` that neither starts nor ends with white space. */
  function Strip(s: string): (r: string)
    ensures |r| <= |s|
    ensures r == [] || (!IsSpace(r[0]) && !IsSpace(r[|r| - 1]))
    ensures exists i :: SliceBetweenSpaces(s, r, i)
  {
    StripIsSlice(s);
    StripRight(StripLeft(s))
  }

  lemma StripIsSlice(s: string)
    ensures SliceBetweenSpaces(s, StripRight(StripLeft(s)), |s| - |StripLeft(s)|)
  {
    var l := StripLeft(s);
    SliceBetween(s, l, StripRight(l), |s| - |l|);
  }

  /** White space, then the suffix `l`; within `l`, the prefix `r`, then white space. */
  lemma SliceBetween(s: string, l: string, r: string, i: nat)
    requires i <= |s| && l == s[i..] && forall j | 0 <= j < i :: IsSpace(s[j])
    requires |r| <= |l| && r == l[..|r|] && forall k | |r| <= k < |l| :: IsSpace(l[k])
    ensures SliceBetweenSpaces(s, r, i)
  {
    forall j | i + |r| <= j < |s|
      ensures IsSpace(s[j])
    {
      assert s[j] == l[j - i];
    }
  }

  lemma StripKeeps(s: string)
    requires s != [] && !IsSpace(s[0]) && !IsSpace(s[|s| - 1])
    ensures Strip(s) == s
  {
  }
}
