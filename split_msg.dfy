/** The splitter of split_msg.py: cutting a tree against a character budget
    (`SplitHtmlByBorder`, specified by `Split`), and the fragment loop
    (`SplitMessage`, specified by `Fragments`).

    The source mutates its trees in place: extracted children leave the input
    tag. Here a tree is a value, so a split returns the state the input is
    left in (`remaining`) beside its result, and the caller puts that state
    back where the input was.
 */
module SplitMsg {
  import opened Html

  /** Default maximum fragment length. */
  const MaxLen: int := 4096

  /** Tags whose content may be divided between two fragments. */
  const BlockTags: set<string> := {"p", "b", "strong", "i", "ul", "ol", "div", "span"}

  /** The smallest budget the splitter accepts for a partial tag (a fixed literal,
      whatever the size of the tag being split). */
  const MinInnerBorder: int := 7

  datatype Option<T> = None | Some(value: T)

  /** The failures the splitter raises (all are `ValueError` in the source). */
  datatype SplitError =
    | TextNotSplittable(text: string)                      // a text node would have to be cut
    | NotSplittable(element: Node)                         // tag outside BlockTags
    | NoContent(element: Node)                             // tag without children
    | BorderTooSmall(innerBorder: int)                     // budget below MinInnerBorder
    | SeparationFailed(element: Node, innerBorder: int)    // the recursive attempt failed

  datatype SplitResult = Left(chunk: Node) | Failed(error: SplitError)

  /** One call's result, and the state it leaves its input in. */
  datatype Outcome = Outcome(result: SplitResult, remaining: Node)

  /** A childless clone of `tag`: same name, attributes and flags. */
  function CopyTagWithoutContents(tag: Node): (copy: Node)
    requires tag.Element?
    ensures copy.Element? && copy.children == []
    ensures copy.name == tag.name && copy.attrs == tag.attrs
    ensures copy.canBeEmpty == tag.canBeEmpty && copy.hidden == tag.hidden
  {
    Element(tag.name, tag.attrs, tag.canBeEmpty, tag.hidden, [])
  }

  /** Whether child `j` of `tag` fits next to the children before it. */
  predicate Fits(tag: Node, j: nat, border: int)
    requires tag.Element? && j < |tag.children|
  {
    SerLen(tag.(children := tag.children[..j])) + SerLen(tag.children[j]) <= border
  }

  /** The index of the first child, from `i` on, that does not fit next to
      the children before it (or the number of children if all fit). */
  function FitCount(tag: Node, border: int, i: nat): (k: nat)
    requires tag.Element? && i <= |tag.children|
    ensures i <= k <= |tag.children|
    ensures forall j | i <= j < k :: Fits(tag, j, border)
    ensures k < |tag.children| ==> !Fits(tag, k, border)
    decreases |tag.children| - i
  {
    if i == |tag.children| || !Fits(tag, i, border) then i else FitCount(tag, border, i + 1)
  }

  /** The checks made on the first child when it alone does not fit. */
  function GuardError(c: Node, innerBorder: int): Option<SplitError>
  {
    if c.Text? then Some(TextNotSplittable(c.text))
    else if c.name !in BlockTags then Some(NotSplittable(c))
    else if c.children == [] then Some(NoContent(c))
    else if innerBorder < MinInnerBorder then Some(BorderTooSmall(innerBorder))
    else None
  }

  /** What one call of the splitter does to `n` with budget `border`. */
  function Split(n: Node, border: int): Outcome
    decreases n
  {
    match n
    case Text(t) => Outcome(Failed(TextNotSplittable(t)), n)
    case Element(_, _, _, _, cs) =>
      var k := FitCount(n, border, 0);
      var left := n.(children := cs[..k]);
      if k == |cs| then Outcome(Left(left), n.(children := []))
      else
        var c := cs[k];
        var innerBorder := border - SerLen(left);
        var guard := if k == 0 then GuardError(c, innerBorder) else None;
        if guard.Some? then Outcome(Failed(guard.value), n)
        else
          var inner := Split(c, innerBorder);
          var remaining := n.(children := [inner.remaining] + cs[k + 1..]);
          match inner.result
          case Left(part) => Outcome(Left(n.(children := cs[..k] + [part])), remaining)
          case Failed(_) =>
            if k > 0 then Outcome(Left(left), remaining)
            else Outcome(Failed(SeparationFailed(c, innerBorder)), remaining)
  }

  /** Moves whole children of `elements`, front first, into a fresh copy of it
      while they fit in `border`; at the first child that does not fit, makes
      one recursive attempt on it with the budget left, then stops.
      `remaining` is what is left of `elements`. */
  method SplitHtmlByBorder(elements: Node, border: int) returns (result: SplitResult, remaining: Node)
    ensures Outcome(result, remaining) == Split(elements, border)
    decreases elements
  {
    if elements.Text? {
      return Failed(TextNotSplittable(elements.text)), elements;
    }
    var leftChunk := CopyTagWithoutContents(elements);
    var contents := elements.children;
    ghost var k := FitCount(elements, border, 0);
    while contents != []
      invariant |contents| <= |elements.children|
      invariant |elements.children| - |contents| <= k
      invariant leftChunk == elements.(children := elements.children[..|elements.children| - |contents|])
      invariant contents == elements.children[|elements.children| - |contents|..]
      decreases |contents|
    {
      ghost var i := |elements.children| - |contents|;
      var innerElement := contents[0];
      var leftChunkLen := SerLen(leftChunk);
      if leftChunkLen + SerLen(innerElement) <= border {
        assert Fits(elements, i, border);
        leftChunk := leftChunk.(children := leftChunk.children + [innerElement]);
        contents := contents[1..];
        assert elements.children[..i + 1] == elements.children[..i] + [innerElement];
      } else {
        assert innerElement == elements.children[i];
        assert !Fits(elements, i, border);
        assert i == k;
        var innerBorder := border - leftChunkLen;
        if leftChunk.children == [] {
          if innerElement.Element? {
            if innerElement.name !in BlockTags {
              return Failed(NotSplittable(innerElement)), elements;
            }
            if innerElement.children == [] {
              return Failed(NoContent(innerElement)), elements;
            }
            if innerBorder < MinInnerBorder {
              return Failed(BorderTooSmall(innerBorder)), elements;
            }
          } else {
            return Failed(TextNotSplittable(innerElement.text)), elements;
          }
        }
        assert innerElement == elements.children[i];
        var innerResult, innerRemaining := SplitHtmlByBorder(innerElement, innerBorder);
        contents := [innerRemaining] + contents[1..];
        match innerResult {
          case Left(part) =>
            leftChunk := leftChunk.(children := leftChunk.children + [part]);
          case Failed(_) =>
            if leftChunk.children == [] {
              return Failed(SeparationFailed(innerElement, innerBorder)), elements.(children := contents);
            }
        }
        break;
      }
    }
    return Left(leftChunk), elements.(children := contents);
  }

  /** A failing call has extracted nothing: its input is left as it was. */
  lemma {:induction false} FailureLeavesInputUnchanged(n: Node, border: int)
    requires Split(n, border).result.Failed?
    ensures Split(n, border).remaining == n
    decreases n
  {
    if n.Element? {
      var cs := n.children;
      var k := FitCount(n, border, 0);
      var innerBorder := border - SerLen(n.(children := cs[..k]));
      if k < |cs| && (k > 0 || GuardError(cs[k], innerBorder).None?) {
        FailureLeavesInputUnchanged(cs[k], innerBorder);
        assert [cs[0]] + cs[1..] == cs;
      }
    }
  }

  /** A successful split leaves an element behind and never adds nodes to
      it; when the input had children, at least one node has left it. */
  lemma {:induction false} SplitProgress(n: Node, border: int)
    requires n.Element? && Split(n, border).result.Left?
    ensures Split(n, border).remaining.Element?
    ensures Count(Split(n, border).remaining) <= Count(n)
    ensures n.children != [] ==> Count(Split(n, border).remaining) < Count(n)
    decreases n
  {
    var cs := n.children;
    var k := FitCount(n, border, 0);
    if k < |cs| {
      var c := cs[k];
      var innerBorder := border - SerLen(n.(children := cs[..k]));
      var inner := Split(c, innerBorder);
      CountAllSplice(cs, k);
      CountAllCons(inner.remaining, cs[k + 1..]);
      if inner.result.Left? {
        assert k == 0 ==> c.children != [];
        SplitProgress(c, innerBorder);
      } else {
        assert k > 0;
        FailureLeavesInputUnchanged(c, innerBorder);
        CountAllPositive(cs[..k]);
      }
    }
  }

  /** What the fragment loop has produced: the chunks cut off the root, the
      error that ended it (if any), and the root as it was left. */
  datatype Run = Run(chunks: seq<Node>, failure: Option<SplitError>, remaining: Node)

  /** `while soup.contents: split the soup with max_len`. */
  function SplitLoop(soup: Node, maxLen: int): Run
    requires soup.Element?
    decreases Count(soup)
  {
    if soup.children == [] then Run([], None, soup)
    else
      var o := Split(soup, maxLen);
      match o.result
      case Failed(e) => Run([], Some(e), o.remaining)
      case Left(chunk) =>
        SplitProgress(soup, maxLen);
        var rest := SplitLoop(o.remaining, maxLen);
        Run([chunk] + rest.chunks, rest.failure, rest.remaining)
  }

  /** A chunk as it is yielded: serialised and stripped. */
  function Render(chunk: Node): string
  {
    Strip(Serialize(chunk))
  }

  function Renders(chunks: seq<Node>): seq<string>
  {
    if chunks == [] then [] else [Render(chunks[0])] + Renders(chunks[1..])
  }

  /** The fragments yielded before the generator stops, and the error it
      stops with, if any. */
  datatype Message = Message(fragments: seq<string>, failure: Option<SplitError>)

  /** What `split_message` yields for `source`, whose parse is `soup`. */
  function Fragments(source: string, soup: Node, maxLen: int): Message
    requires soup.Element?
  {
    if |source| <= maxLen then Message([source], None)
    else
      var run := SplitLoop(soup, maxLen);
      Message(Renders(run.chunks), run.failure)
  }

  /** The fragment generator. `soup` is the parser's tree for `source`. */
  method SplitMessage(source: string, soup: Node, maxLen: int := MaxLen) returns (fragments: seq<string>, failure: Option<SplitError>)
    requires soup.Element?
    ensures Message(fragments, failure) == Fragments(source, soup, maxLen)
    ensures |source| <= maxLen ==> fragments == [source] && failure == None
  {
    if |source| <= maxLen {
      return [source], None;
    }
    var tree := soup;
    fragments, failure := [], None;
    while tree.children != []
      invariant tree.Element?
      invariant SplitLoop(soup, maxLen).failure == SplitLoop(tree, maxLen).failure
      invariant Renders(SplitLoop(soup, maxLen).chunks) == fragments + Renders(SplitLoop(tree, maxLen).chunks)
      decreases Count(tree)
    {
      var result, remaining := SplitHtmlByBorder(tree, maxLen);
      match result {
        case Failed(e) =>
          return fragments, Some(e);
        case Left(chunk) =>
          SplitProgress(tree, maxLen);
          ghost var rest := SplitLoop(remaining, maxLen).chunks;
          assert ([chunk] + rest)[1..] == rest;
          fragments := fragments + [Render(chunk)];
          tree := remaining;
      }
    }
  }
}
