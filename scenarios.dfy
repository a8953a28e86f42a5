/** The documents of the test suite and a few others, run through the model. */
module Scenarios {
  import opened Html
  import opened SplitMsg
  import opened SplitProps

  /** The parser's document root. */
  function Root(cs: seq<Node>): Node
  {
    Element("[document]", [], false, true, cs)
  }

  /** A tag without attributes, not void-capable. */
  function Tag(name: string, cs: seq<Node>): Node
  {
    Element(name, [], false, false, cs)
  }

  lemma SerializeOne(x: Node)
    ensures SerializeAll([x]) == Serialize(x)
  {
    assert [x][..0] == [];
  }

  lemma SerializeWrapped(name: string, x: Node)
    ensures Serialize(Tag(name, [x])) == "<" + name + ">" + Serialize(x) + "</" + name + ">"
  {
    SerializeOne(x);
  }

  /** A root holding one element renders as that element's text. */
  lemma RenderSingle(x: Node, r: string)
    requires Serialize(x) == r && r != [] && r[0] == '<' && r[|r| - 1] == '>'
    ensures Render(Root([x])) == r
  {
    SerializeOne(x);
    StripKeeps(r);
  }

  lemma ChildrenLenOne(x: Node)
    ensures ChildrenLen([x]) == SerLen(x)
  {
    assert [x][..0] == [];
  }

  /** `<p>` + a run of text longer than the budget allows: the text cannot be
      cut, so nothing is yielded and the error names the paragraph and the
      budget. With a 5000-character run this holds for a budget of 1000, as
      the test suite expects, and for the default 4096 too. */
  lemma {:induction false} LongSingleTagFails(s: string, maxLen: int)
    requires MinInnerBorder <= maxLen < |s| + 7
    ensures var p := Tag("p", [Text(s)]);
            Fragments("<p>" + s + "</p>", Root([p]), maxLen) == Message([], Some(SeparationFailed(p, maxLen)))
  {
    var p := Tag("p", [Text(s)]);
    ChildrenLenOne(Text(s));
    ChildrenLenOne(p);
    assert [p][..0] == [] && [Text(s)][..0] == [];
    assert !Fits(Root([p]), 0, maxLen);
    assert !Fits(p, 0, maxLen);
    assert Split(p, maxLen).result == Failed(TextNotSplittable(s));
    assert Split(Root([p]), maxLen).result == Failed(SeparationFailed(p, maxLen));
  }

  lemma LongSingleTagScenarios(s: string)
    requires |s| == 5000
    ensures var p := Tag("p", [Text(s)]);
            && Fragments("<p>" + s + "</p>", Root([p]), 1000) == Message([], Some(SeparationFailed(p, 1000)))
            && Fragments("<p>" + s + "</p>", Root([p]), MaxLen) == Message([], Some(SeparationFailed(p, MaxLen)))
  {
    LongSingleTagFails(s, 1000);
    LongSingleTagFails(s, MaxLen);
  }

  /** A budget of 5 is below the fixed threshold of 7: the first split fails
      at once with that budget, and nothing is yielded. */
  lemma BorderBelowThreshold()
    ensures var p := Tag("p", [Text("Basic HTML (No Splitting Required)")]);
            Fragments("<p>Basic HTML (No Splitting Required)</p>", Root([p]), 5)
              == Message([], Some(BorderTooSmall(5)))
  {
    var t := Text("Basic HTML (No Splitting Required)");
    var p := Tag("p", [t]);
    ChildrenLenOne(t);
    ChildrenLenOne(p);
    assert [p][..0] == [];
    assert !Fits(Root([p]), 0, 5);
  }

  /** A paragraph of 93 characters of text: 100 characters in all. */
  function Paragraph(s: string): Node
  {
    Tag("p", [Text(s)])
  }

  lemma ParagraphLen(s: string)
    requires |s| == 93
    ensures SerLen(Paragraph(s)) == 100
    ensures Split(Paragraph(s), 0) == Outcome(Failed(TextNotSplittable(s)), Paragraph(s))
  {
    ChildrenLenOne(Text(s));
    assert [Text(s)][..0] == [];
    assert !Fits(Paragraph(s), 0, 0);
  }

  /** With a second paragraph behind the first, a pass takes the first whole
      and fails, silently, to cut the second. */
  lemma ParagraphPass(s: string, rest: seq<Node>)
    requires |s| == 93
    ensures var a := Paragraph(s);
            Split(Root([a, a] + rest), 100) == Outcome(Left(Root([a])), Root([a] + rest))
  {
    var a := Paragraph(s);
    var cs := [a, a] + rest;
    ParagraphLen(s);
    ChildrenLenOne(a);
    assert cs[..0] == [] && cs[..1] == [a];
    assert Fits(Root(cs), 0, 100) && !Fits(Root(cs), 1, 100);
    assert FitCount(Root(cs), 100, 0) == 1;
    assert [a] + cs[2..] == [a] + rest;
  }

  lemma LastParagraphPass(s: string)
    requires |s| == 93
    ensures var a := Paragraph(s);
            Split(Root([a]), 100) == Outcome(Left(Root([a])), Root([]))
  {
    var a := Paragraph(s);
    ParagraphLen(s);
    assert [a][..0] == [] && [a][..1] == [a];
    assert Fits(Root([a]), 0, 100);
    assert FitCount(Root([a]), 100, 0) == 1;
  }

  lemma ParagraphLoop(s: string)
    requires |s| == 93
    ensures var a := Paragraph(s);
            SplitLoop(Root([a, a, a]), 100) == Run([Root([a]), Root([a]), Root([a])], None, Root([]))
  {
    var a := Paragraph(s);
    ParagraphPass(s, [a]);
    assert [a, a] + [a] == [a, a, a];
    ParagraphPass(s, []);
    assert [a, a] + [] == [a, a];
    assert [a] + [a] == [a, a];
    assert [a] + [] == [a];
    LastParagraphPass(s);
    assert SplitLoop(Root([a]), 100) == Run([Root([a])], None, Root([]));
    assert SplitLoop(Root([a, a]), 100) == Run([Root([a]), Root([a])], None, Root([]));
  }

  lemma ParagraphRender(s: string)
    ensures Render(Root([Paragraph(s)])) == "<p>" + s + "</p>"
  {
    var r := "<p>" + s + "</p>";
    SerializeWrapped("p", Text(s));
    RenderSingle(Paragraph(s), r);
  }

  /** Three paragraphs of exactly 100 characters each, with a budget of 100:
      one paragraph per fragment. */
  lemma ThreeParagraphs(s: string)
    requires |s| == 93
    ensures var a := Paragraph(s);
            var f := "<p>" + s + "</p>";
            Fragments(f + f + f, Root([a, a, a]), 100) == Message([f, f, f], None)
  {
    var a := Paragraph(s);
    var f := "<p>" + s + "</p>";
    ParagraphLoop(s);
    ParagraphRender(s);
    var chunks := [Root([a]), Root([a]), Root([a])];
    RendersAt(chunks);
  }

  /** `<b>Hello, <i>world</i></b>` */
  const Bold: Node := Tag("b", [Text("Hello, "), Tag("i", [Text("world")])])

  /** `<b>h<i>w</i></b>` */
  lemma BoldShape(h: string, w: string)
    ensures SerLen(Tag("b", [Text(h), Tag("i", [Text(w)])])) == |h| + |w| + 14
    ensures Serialize(Tag("b", [Text(h), Tag("i", [Text(w)])])) == "<b>" + h + "<i>" + w + "</i></b>"
  {
    var i := Tag("i", [Text(w)]);
    var cs := [Text(h), i];
    ChildrenLenOne(Text(w));
    SerializeWrapped("i", Text(w));
    assert cs[..|cs| - 1] == [Text(h)];
    ChildrenLenOne(Text(h));
    SerializeOne(Text(h));
    assert SerLen(i) == |w| + 7;
    assert ChildrenLen(cs) == |h| + SerLen(i);
    assert SerializeAll(cs) == h + Serialize(i);
  }

  lemma BoldText()
    ensures SerLen(Bold) == 26
    ensures Serialize(Bold) == "<b>Hello, <i>world</i></b>"
  {
    BoldShape("Hello, ", "world");
  }

  /** The fixture's paragraph: the bold element, then one text node. */
  function NestedParagraph(s: string): Node
  {
    Tag("p", [Bold, Text(" " + s)])
  }

  lemma NestedParagraphSplit(s: string)
    requires |s| == 4063
    ensures SerLen(NestedParagraph(s)) == 4097
    ensures Split(NestedParagraph(s), MaxLen) == Outcome(Left(Tag("p", [Bold])), Tag("p", [Text(" " + s)]))
  {
    var b, t := Bold, Text(" " + s);
    var p := NestedParagraph(s);
    BoldText();
    ChildrenLenOne(b);
    assert [b, t][..1] == [b] && [b, t][..0] == [];
    assert SerLen(Tag("p", [b])) == 33;
    assert Fits(p, 0, MaxLen) && !Fits(p, 1, MaxLen);
    assert FitCount(p, MaxLen, 0) == 1;
    assert Split(t, MaxLen - 33) == Outcome(Failed(TextNotSplittable(" " + s)), t);
    assert [t] + [b, t][2..] == [t];
  }

  lemma NestedFirstPass(s: string)
    requires |s| == 4063
    ensures Split(Root([NestedParagraph(s)]), MaxLen)
              == Outcome(Left(Root([Tag("p", [Bold])])), Root([Tag("p", [Text(" " + s)])]))
  {
    var p := NestedParagraph(s);
    var p1, p2 := Tag("p", [Bold]), Tag("p", [Text(" " + s)]);
    NestedParagraphSplit(s);
    ChildrenLenOne(p);
    assert [p][..0] == [];
    assert !Fits(Root([p]), 0, MaxLen);
    assert FitCount(Root([p]), MaxLen, 0) == 0;
    assert SerLen(Root([])) == 0;
    assert GuardError(p, MaxLen) == None;
    assert [p2] + [p][1..] == [p2];
    assert [p][..0] + [p1] == [p1];
    assert Root([p]).(children := [p][..0]) == Root([]);
  }

  lemma NestedSecondPass(s: string)
    requires |s| == 4063
    ensures var p2 := Tag("p", [Text(" " + s)]);
            SplitLoop(Root([p2]), MaxLen) == Run([Root([p2])], None, Root([]))
  {
    var p2 := Tag("p", [Text(" " + s)]);
    ChildrenLenOne(Text(" " + s));
    ChildrenLenOne(p2);
    assert [p2][..0] == [] && [p2][..1] == [p2];
    assert Fits(Root([p2]), 0, MaxLen);
    assert FitCount(Root([p2]), MaxLen, 0) == 1;
    assert Split(Root([p2]), MaxLen) == Outcome(Left(Root([p2])), Root([]));
  }

  lemma BoldParagraphText()
    ensures Serialize(Tag("p", [Bold])) == "<p><b>Hello, <i>world</i></b></p>"
  {
    SerializeWrapped("p", Bold);
    BoldInParagraph();
  }

  lemma BoldInParagraph()
    ensures "<p>" + Serialize(Bold) + "</p>" == "<p><b>Hello, <i>world</i></b></p>"
  {
    BoldText();
  }

  lemma NestedRenderFirst()
    ensures Render(Root([Tag("p", [Bold])])) == "<p><b>Hello, <i>world</i></b></p>"
  {
    BoldParagraphText();
    RenderSingle(Tag("p", [Bold]), "<p><b>Hello, <i>world</i></b></p>");
  }

  lemma NestedRenderSecond(s: string)
    ensures Render(Root([Tag("p", [Text(" " + s)])])) == "<p> " + s + "</p>"
  {
    var p2 := Tag("p", [Text(" " + s)]);
    var r := "<p> " + s + "</p>";
    assert Serialize(p2) == r by {
      SerializeWrapped("p", Text(" " + s));
      assert "<p>" + (" " + s) + "</p>" == r;
    }
    RenderSingle(p2, r);
  }

  /** The nested-tags fixture: a 4097-character paragraph with a budget of
      4096 is cut after its bold element, and the text that follows makes the
      second fragment, under a second `<p>`. */
  lemma NestedTags(s: string)
    requires |s| == 4063
    ensures Fragments("<p><b>Hello, <i>world</i></b> " + s + "</p>", Root([NestedParagraph(s)]), MaxLen)
              == Message(["<p><b>Hello, <i>world</i></b></p>", "<p> " + s + "</p>"], None)
  {
    var p1, p2 := Tag("p", [Bold]), Tag("p", [Text(" " + s)]);
    var chunks := [Root([p1]), Root([p2])];
    NestedLoop(s);
    NestedRenderFirst();
    NestedRenderSecond(s);
    RendersAt(chunks);
  }

  /** The two passes of the loop over the nested-tags fixture. */
  lemma NestedLoop(s: string)
    requires |s| == 4063
    ensures SplitLoop(Root([NestedParagraph(s)]), MaxLen)
              == Run([Root([Tag("p", [Bold])]), Root([Tag("p", [Text(" " + s)])])], None, Root([]))
  {
    NestedFirstPass(s);
    NestedSecondPass(s);
  }

  /** `<i><span></span></i> s</i>` with a budget of 18: the empty `span` stops
      the inner split, and the failure reaches the caller wrapped as a failed
      separation of the `i` element. */
  lemma EmptyNestedElementFails()
    ensures var i := Tag("i", [Tag("span", [])]);
            Fragments("<i><span></span></i> s</i>", Root([i, Text(" s")]), 18)
              == Message([], Some(SeparationFailed(i, 18)))
  {
    var i := Tag("i", [Tag("span", [])]);
    var root := Root([i, Text(" s")]);
    EmptySpanFails();
    assert [i, Text(" s")][..0] == [];
    assert !Fits(root, 0, 18);
    assert Split(root, 18) == Outcome(Failed(SeparationFailed(i, 18)), root);
    assert SplitLoop(root, 18) == Run([], Some(SeparationFailed(i, 18)), root);
  }

  /** The call on `i` at 18: its only child is the empty `span`. */
  lemma EmptySpanFails()
    ensures var span := Tag("span", []);
            var i := Tag("i", [span]);
            SerLen(i) == 20 && Split(i, 18) == Outcome(Failed(NoContent(span)), i)
  {
    var span := Tag("span", []);
    var i := Tag("i", [span]);
    ChildrenLenOne(span);
    ChildrenLenOne(i);
    assert [span][..0] == [];
    assert !Fits(i, 0, 18);
    assert GuardError(span, 18) == Some(NoContent(span));
  }

  /** An empty element reached after some content is appended as an empty
      copy with no length check: the chunk overflows its budget, and the
      element stays in the input, where the next split fails on it. */
  lemma EmptyElementAfterContent()
    ensures var span := Tag("span", []);
            var o := Split(Root([Text("abc"), span]), 5);
            && o == Outcome(Left(Root([Text("abc"), span])), Root([span]))
            && SerLen(o.result.chunk) == 16 > 5
            && Split(o.remaining, 5).result == Failed(NoContent(span))
  {
    var span := Tag("span", []);
    var cs := [Text("abc"), span];
    assert cs[..0] == [] && cs[..1] == [Text("abc")];
    ChildrenLenOne(Text("abc"));
    ChildrenLenOne(span);
    assert Fits(Root(cs), 0, 5) && !Fits(Root(cs), 1, 5);
    assert FitCount(Root(cs), 5, 0) == 1;
    assert Split(span, 2) == Outcome(Left(span), span);
    assert cs[..1] + [span] == cs;
    assert [span] + cs[2..] == [span];
    assert cs[..|cs| - 1] == [Text("abc")];
    assert [span][..0] == [];
    assert !Fits(Root([span]), 0, 5);
  }
}
