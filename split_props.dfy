/** What the splitter and the fragment loop guarantee. */
module SplitProps {
  import opened Html
  import opened SplitMsg

  /* ---------- the tag copy ---------- */

  /** Refilling the copy with the original's children gives back the original:
      the copy loses nothing but the children. */
  lemma CopyRefilledIsOriginal(tag: Node)
    requires tag.Element?
    ensures var copy := CopyTagWithoutContents(tag);
            copy.Element? && copy.(children := tag.children) == tag && Leaves(copy) == []
  {
  }

  /* ---------- failures ---------- */

  /** A split fails only while the left chunk is still empty, at a first child
      that does not fit on its own; the error is the check that stopped it or
      the wrapped failure of the recursive attempt on that child. */
  lemma FailureOnlyAtFirstChild(n: Node, border: int)
    requires n.Element? && Split(n, border).result.Failed?
    ensures n.children != []
    ensures SerLen(CopyTagWithoutContents(n)) + SerLen(n.children[0]) > border
    ensures var c, innerBorder := n.children[0], border - SerLen(CopyTagWithoutContents(n));
            var e := Split(n, border).result.error;
            (GuardError(c, innerBorder).Some? && e == GuardError(c, innerBorder).value)
            || (GuardError(c, innerBorder).None? && Split(c, innerBorder).result.Failed?
                && e == SeparationFailed(c, innerBorder))
  {
    var k := FitCount(n, border, 0);
    assert k == 0;
    assert n.children[..0] == [];
  }

  /** Conversely, a first child that does not fit on its own makes the split
      fail exactly when one of the checks rejects it or the recursive attempt
      on it fails; a text node given as input always fails. */
  lemma FirstChildFailures(n: Node, border: int)
    ensures n.Text? ==> Split(n, border) == Outcome(Failed(TextNotSplittable(n.text)), n)
    ensures n.Element? && n.children != [] && SerLen(CopyTagWithoutContents(n)) + SerLen(n.children[0]) > border ==>
            var c, innerBorder := n.children[0], border - SerLen(CopyTagWithoutContents(n));
            (GuardError(c, innerBorder).Some? ==> Split(n, border) == Outcome(Failed(GuardError(c, innerBorder).value), n))
            && (GuardError(c, innerBorder).None? && Split(c, innerBorder).result.Failed? ==>
                Split(n, border) == Outcome(Failed(SeparationFailed(c, innerBorder)), n))
  {
    if n.Element? && n.children != [] && SerLen(CopyTagWithoutContents(n)) + SerLen(n.children[0]) > border {
      var c, innerBorder := n.children[0], border - SerLen(CopyTagWithoutContents(n));
      assert n.children[..0] == [];
      assert !Fits(n, 0, border);
      if GuardError(c, innerBorder).None? && Split(c, innerBorder).result.Failed? {
        FailureLeavesInputUnchanged(c, innerBorder);
        assert [c] + n.children[1..] == n.children;
      }
    }
  }

  /** When the recursive attempt on the child that does not fit fails after
      some children were taken, the call still succeeds with those children
      and leaves the unfit child, untouched, at the front of the input. */
  lemma FailedAttemptKeepsChunk(n: Node, border: int)
    requires n.Element?
    requires var k := FitCount(n, border, 0);
             0 < k < |n.children|
             && Split(n.children[k], border - SerLen(n.(children := n.children[..k]))).result.Failed?
    ensures var k := FitCount(n, border, 0);
            Split(n, border) == Outcome(Left(n.(children := n.children[..k])), n.(children := n.children[k..]))
  {
    var cs := n.children;
    var k := FitCount(n, border, 0);
    var innerBorder := border - SerLen(n.(children := cs[..k]));
    FailureLeavesInputUnchanged(cs[k], innerBorder);
    assert [cs[k]] + cs[k + 1..] == cs[k..];
    assert Split(n, border) == Outcome(Left(n.(children := cs[..k])), n.(children := [cs[k]] + cs[k + 1..]));
  }

  /* ---------- shape of a split: one cut, in document order ---------- */

  /** `left` and `rest` are `n`'s two sides of one cut point: both keep `n`'s
      tag, `n`'s children are shared out between them in order, and at most
      one child, the one at the cut, goes to both sides, itself cut the same
      way. In a proper cut both parts of every child that is cut have content,
      so a tag appears on both sides only when its content is divided. */
  ghost predicate IsCut(n: Node, left: Node, rest: Node, proper: bool)
    decreases n
  {
    && n.Element? && left.Element? && rest.Element?
    && left == n.(children := left.children)
    && rest == n.(children := rest.children)
    && (|| n.children == left.children + rest.children
        || (var k := |left.children| - 1;
            && 0 <= k < |n.children| && rest.children != []
            && left.children[..k] == n.children[..k]
            && rest.children[1..] == n.children[k + 1..]
            && IsCut(n.children[k], left.children[k], rest.children[0], proper)
            && (proper ==> left.children[k].children != [] && rest.children[0].children != [])))
  }

  /** Sharing the children out in order, with no child cut, is a proper cut. */
  lemma CleanCut(n: Node, k: nat, proper: bool)
    requires n.Element? && k <= |n.children|
    ensures IsCut(n, n.(children := n.children[..k]), n.(children := n.children[k..]), proper)
  {
    assert n.children == n.children[..k] + n.children[k..];
  }

  /** Cutting child `k` and sharing the children around it out in order is a cut. */
  lemma CutThrough(n: Node, k: nat, lc: Node, rc: Node, proper: bool)
    requires n.Element? && k < |n.children|
    requires IsCut(n.children[k], lc, rc, proper)
    requires proper ==> lc.children != [] && rc.children != []
    ensures IsCut(n, n.(children := n.children[..k] + [lc]), n.(children := [rc] + n.children[k + 1..]), proper)
  {
    var left := n.children[..k] + [lc];
    var rest := [rc] + n.children[k + 1..];
    assert left[..k] == n.children[..k];
    assert left[k] == lc;
    assert rest[1..] == n.children[k + 1..];
  }

  /** A successful split cuts its input once: whole children first, then at
      most one partial child, which is the first child that did not fit. */
  lemma {:induction false} SplitIsCut(n: Node, border: int)
    requires Split(n, border).result.Left?
    ensures n.Element?
    ensures IsCut(n, Split(n, border).result.chunk, Split(n, border).remaining, false)
    ensures var k := FitCount(n, border, 0); var left := Split(n, border).result.chunk.children;
            k <= |left| <= k + 1 && left[..k] == n.children[..k]
    decreases n, 1
  {
    var cs := n.children;
    var k := FitCount(n, border, 0);
    if k < |cs| {
      var innerBorder := border - SerLen(n.(children := cs[..k]));
      if Split(cs[k], innerBorder).result.Left? {
        CutAtPartialChild(n, border);
      } else {
        CutBeforeFailedChild(n, border);
      }
    } else {
      assert Split(n, border) == Outcome(Left(n.(children := cs[..k])), n.(children := []));
      CleanCut(n, k, false);
      assert cs[k..] == [];
    }
  }

  /** `SplitIsCut` when the child that does not fit is itself cut. */
  lemma {:induction false} CutAtPartialChild(n: Node, border: int)
    requires n.Element? && Split(n, border).result.Left?
    requires var k := FitCount(n, border, 0);
             && k < |n.children|
             && Split(n.children[k], border - SerLen(n.(children := n.children[..k]))).result.Left?
    ensures IsCut(n, Split(n, border).result.chunk, Split(n, border).remaining, false)
    ensures var k := FitCount(n, border, 0); var left := Split(n, border).result.chunk.children;
            |left| == k + 1 && left[..k] == n.children[..k]
    decreases n, 0
  {
    var cs := n.children;
    var k := FitCount(n, border, 0);
    var innerBorder := border - SerLen(n.(children := cs[..k]));
    var inner := Split(cs[k], innerBorder);
    SplitIsCut(cs[k], innerBorder);
    var left := n.(children := cs[..k] + [inner.result.chunk]);
    var rest := n.(children := [inner.remaining] + cs[k + 1..]);
    assert Split(n, border) == Outcome(Left(left), rest);
    CutThrough(n, k, inner.result.chunk, inner.remaining, false);
    assert IsCut(n, left, rest, false);
    assert left.children[..k] == cs[..k];
  }

  /** `SplitIsCut` when the attempt on the child that does not fit fails. */
  lemma CutBeforeFailedChild(n: Node, border: int)
    requires n.Element? && Split(n, border).result.Left?
    requires var k := FitCount(n, border, 0);
             && k < |n.children|
             && Split(n.children[k], border - SerLen(n.(children := n.children[..k]))).result.Failed?
    ensures IsCut(n, Split(n, border).result.chunk, Split(n, border).remaining, false)
    ensures var k := FitCount(n, border, 0); var left := Split(n, border).result.chunk.children;
            |left| == k && left == n.children[..k]
  {
    var cs := n.children;
    var k := FitCount(n, border, 0);
    var innerBorder := border - SerLen(n.(children := cs[..k]));
    var inner := Split(cs[k], innerBorder);
    assert Split(n, border) == Outcome(Left(n.(children := cs[..k])), n.(children := [inner.remaining] + cs[k + 1..]));
    FailureLeavesInputUnchanged(cs[k], innerBorder);
    assert [cs[k]] + cs[k + 1..] == cs[k..];
    CleanCut(n, k, false);
  }

  lemma LeavesAllCons(x: Node, rest: seq<Node>)
    ensures LeavesAll([x] + rest) == Leaves(x) + LeavesAll(rest)
  {
    LeavesAllConcat([x], rest);
    assert [x][..0] == [];
  }

  /** A cut neither loses, duplicates nor reorders text. */
  lemma {:induction false} CutConservesLeaves(n: Node, left: Node, rest: Node, proper: bool)
    requires IsCut(n, left, rest, proper)
    ensures Leaves(left) + Leaves(rest) == Leaves(n)
    decreases n
  {
    if n.children == left.children + rest.children {
      LeavesAllConcat(left.children, rest.children);
    } else {
      var cs := n.children;
      var k := |left.children| - 1;
      var lc, rc := left.children[k], rest.children[0];
      CutConservesLeaves(cs[k], lc, rc, proper);
      assert left.children == cs[..k] + [lc];
      assert rest.children == [rc] + cs[k + 1..];
      LeavesAround(cs, k, lc, rc);
    }
  }

  /** The text of a list is the text before child `k`, then that child's,
      then the text after it. */
  lemma LeavesAt(cs: seq<Node>, k: nat)
    requires k < |cs|
    ensures LeavesAll(cs) == LeavesAll(cs[..k]) + Leaves(cs[k]) + LeavesAll(cs[k + 1..])
  {
    var front, back := cs[..k], cs[k + 1..];
    SliceAround(cs, k);
    calc {
      LeavesAll(cs);
      LeavesAll(front + ([cs[k]] + back));
      { LeavesAllConcat(front, [cs[k]] + back); }
      LeavesAll(front) + LeavesAll([cs[k]] + back);
      { LeavesAllCons(cs[k], back); }
      LeavesAll(front) + (Leaves(cs[k]) + LeavesAll(back));
    }
  }

  lemma SliceAround<T>(s: seq<T>, k: nat)
    requires k < |s|
    ensures s == s[..k] + ([s[k]] + s[k + 1..])
  {
    assert s[k..] == [s[k]] + s[k + 1..];
    assert s == s[..k] + s[k..];
  }

  /** Replacing child `k` by `lc` on the left and `rc` on the right, whose
      text together is that child's, keeps the text of the whole list. */
  lemma LeavesAround(cs: seq<Node>, k: nat, lc: Node, rc: Node)
    requires k < |cs| && Leaves(lc) + Leaves(rc) == Leaves(cs[k])
    ensures LeavesAll(cs[..k] + [lc]) + LeavesAll([rc] + cs[k + 1..]) == LeavesAll(cs)
  {
    var before, after := LeavesAll(cs[..k]), LeavesAll(cs[k + 1..]);
    assert LeavesAll(cs[..k] + [lc]) == before + Leaves(lc) by {
      assert (cs[..k] + [lc])[..k] == cs[..k];
    }
    LeavesAllCons(rc, cs[k + 1..]);
    LeavesAt(cs, k);
    Regroup(before, Leaves(lc), Leaves(rc), after);
  }

  lemma Regroup<T>(a: seq<T>, b: seq<T>, c: seq<T>, d: seq<T>)
    ensures (a + b) + (c + d) == a + (b + c) + d
  {
  }

  /** Text-leaf conservation for one call: the chunk's text followed by the
      text left in the input is the input's text; a failing call moves nothing. */
  lemma SplitConservesText(n: Node, border: int)
    ensures Split(n, border).result.Left? ==>
            Leaves(Split(n, border).result.chunk) + Leaves(Split(n, border).remaining) == Leaves(n)
    ensures Split(n, border).result.Failed? ==> Split(n, border).remaining == n
  {
    if Split(n, border).result.Left? {
      SplitIsCut(n, border);
      CutConservesLeaves(n, Split(n, border).result.chunk, Split(n, border).remaining, false);
    } else {
      FailureLeavesInputUnchanged(n, border);
    }
  }

  /* ---------- the length bound (no empty elements) ---------- */

  /** The first `j` children, all moved whole, stay within the budget. */
  lemma PrefixWithin(n: Node, border: int, j: nat)
    requires n.Element? && !n.canBeEmpty && 0 < j <= |n.children| && Fits(n, j - 1, border)
    ensures SerLen(n.(children := n.children[..j])) <= border
  {
    var cs := n.children;
    assert cs[..j - 1] + [cs[j - 1]] == cs[..j];
    SerLenAppend(n.(children := cs[..j - 1]), cs[j - 1]);
  }

  /** With no empty elements, the left chunk serialises within the budget. */
  lemma {:induction false} ChunkWithinBorder(n: Node, border: int)
    requires n.Element? && n.children != [] && ChildrenDense(n)
    requires Split(n, border).result.Left?
    ensures SerLen(Split(n, border).result.chunk) <= border
    decreases n
  {
    var cs := n.children;
    var k := FitCount(n, border, 0);
    if k == |cs| {
      PrefixWithin(n, border, k);
    } else {
      var left := n.(children := cs[..k]);
      var innerBorder := border - SerLen(left);
      var inner := Split(cs[k], innerBorder);
      assert Dense(cs[k]);
      if inner.result.Left? {
        ChunkWithinBorder(cs[k], innerBorder);
        SerLenAppend(left, inner.result.chunk);
      } else {
        PrefixWithin(n, border, k);
      }
    }
  }

  /** A successful split of an element with children puts something in the chunk. */
  lemma ChunkNotEmpty(n: Node, border: int)
    requires n.Element? && n.children != [] && Split(n, border).result.Left?
    ensures Split(n, border).result.chunk.Element? && Split(n, border).result.chunk.children != []
  {
  }

  /** With no empty elements, an element too long for the budget keeps some
      children after a successful split. */
  lemma OverflowLeavesRest(n: Node, border: int)
    requires n.Element? && n.children != [] && ChildrenDense(n) && SerLen(n) > border
    requires Split(n, border).result.Left?
    ensures Split(n, border).remaining.children != []
  {
    var k := FitCount(n, border, 0);
    if k == |n.children| {
      assert n.children[..k] == n.children;
      assert Split(n, border).result.chunk == n;
      ChunkWithinBorder(n, border);
      assert false;
    }
  }

  /** Density survives a split: the next call of the loop may rely on it again. */
  lemma {:induction false} SplitKeepsDense(n: Node, border: int)
    requires n.Element? && ChildrenDense(n) && Split(n, border).result.Left?
    ensures Split(n, border).remaining.Element? && ChildrenDense(Split(n, border).remaining)
    decreases n
  {
    var cs := n.children;
    var k := FitCount(n, border, 0);
    if k < |cs| {
      var left := n.(children := cs[..k]);
      var innerBorder := border - SerLen(left);
      var c := cs[k];
      var inner := Split(c, innerBorder);
      assert Dense(c);
      var rcs := Split(n, border).remaining.children;
      assert rcs == [inner.remaining] + cs[k + 1..];
      if inner.result.Left? {
        assert !Fits(n, k, border);
        SplitKeepsDense(c, innerBorder);
        OverflowLeavesRest(c, innerBorder);
        assert Dense(inner.remaining);
      } else {
        FailureLeavesInputUnchanged(c, innerBorder);
      }
      forall i | 0 <= i < |rcs| ensures Dense(rcs[i]) {
        if i > 0 {
          assert rcs[i] == cs[k + i];
        }
      }
    }
  }

  /** With no empty elements the cut is proper: a tag is repeated on both
      sides only around content that is really divided between them. */
  lemma {:induction false} SplitIsProperCut(n: Node, border: int)
    requires n.Element? && ChildrenDense(n) && Split(n, border).result.Left?
    ensures IsCut(n, Split(n, border).result.chunk, Split(n, border).remaining, true)
    decreases n
  {
    var cs := n.children;
    var k := FitCount(n, border, 0);
    if k < |cs| {
      var innerBorder := border - SerLen(n.(children := cs[..k]));
      var inner := Split(cs[k], innerBorder);
      assert Dense(cs[k]);
      if inner.result.Left? {
        assert Split(n, border) == Outcome(Left(n.(children := cs[..k] + [inner.result.chunk])),
                                           n.(children := [inner.remaining] + cs[k + 1..]));
        assert !Fits(n, k, border);
        SplitIsProperCut(cs[k], innerBorder);
        ChunkNotEmpty(cs[k], innerBorder);
        OverflowLeavesRest(cs[k], innerBorder);
        CutThrough(n, k, inner.result.chunk, inner.remaining, true);
      } else {
        assert Split(n, border) == Outcome(Left(n.(children := cs[..k])), n.(children := [inner.remaining] + cs[k + 1..]));
        FailureLeavesInputUnchanged(cs[k], innerBorder);
        assert [cs[k]] + cs[k + 1..] == cs[k..];
        CleanCut(n, k, true);
      }
    } else {
      assert Split(n, border) == Outcome(Left(n.(children := cs[..k])), n.(children := []));
      CleanCut(n, k, true);
      assert cs[k..] == [];
    }
  }

  /* ---------- the fragment loop ---------- */

  /** The loop ends with an empty root, or with the error of a split of the
      root as it was then; it never leaves the root changed by a failing call. */
  lemma {:induction false} LoopStops(soup: Node, maxLen: int)
    requires soup.Element?
    ensures var run := SplitLoop(soup, maxLen);
            && run.remaining.Element?
            && (run.failure.None? <==> run.remaining.children == [])
            && (run.failure.Some? ==> Split(run.remaining, maxLen) == Outcome(Failed(run.failure.value), run.remaining))
    decreases Count(soup)
  {
    if soup.children != [] {
      var o := Split(soup, maxLen);
      if o.result.Left? {
        SplitProgress(soup, maxLen);
        LoopStops(o.remaining, maxLen);
      } else {
        FailureLeavesInputUnchanged(soup, maxLen);
      }
    }
  }

  /** The loop makes fewer passes than the tree has nodes. */
  lemma {:induction false} LoopPassesBounded(soup: Node, maxLen: int)
    requires soup.Element?
    ensures |SplitLoop(soup, maxLen).chunks| < Count(soup)
    decreases Count(soup)
  {
    if soup.children != [] {
      var o := Split(soup, maxLen);
      if o.result.Left? {
        SplitProgress(soup, maxLen);
        LoopPassesBounded(o.remaining, maxLen);
      }
    }
  }

  /** Text-leaf conservation over the whole loop: the chunks' text, then the
      text still in the root, is the document's text, in order. */
  lemma {:induction false} LoopConservesText(soup: Node, maxLen: int)
    requires soup.Element?
    ensures var run := SplitLoop(soup, maxLen);
            LeavesAll(run.chunks) + Leaves(run.remaining) == Leaves(soup)
    decreases Count(soup)
  {
    if soup.children != [] {
      var o := Split(soup, maxLen);
      SplitConservesText(soup, maxLen);
      if o.result.Left? {
        SplitProgress(soup, maxLen);
        LoopConservesText(o.remaining, maxLen);
        LeavesAllCons(o.result.chunk, SplitLoop(o.remaining, maxLen).chunks);
      }
    }
  }

  /** With no empty elements every chunk has content and fits in `maxLen`. */
  ghost predicate ChunkFits(chunk: Node, maxLen: int)
  {
    chunk.Element? && chunk.children != [] && SerLen(chunk) <= maxLen
  }

  lemma {:induction false} LoopChunksFit(soup: Node, maxLen: int)
    requires soup.Element? && ChildrenDense(soup)
    ensures forall c | c in SplitLoop(soup, maxLen).chunks :: ChunkFits(c, maxLen)
    decreases Count(soup)
  {
    if soup.children != [] {
      var o := Split(soup, maxLen);
      if o.result.Left? {
        SplitProgress(soup, maxLen);
        ChunkWithinBorder(soup, maxLen);
        ChunkNotEmpty(soup, maxLen);
        SplitKeepsDense(soup, maxLen);
        LoopChunksFit(o.remaining, maxLen);
        var rest := SplitLoop(o.remaining, maxLen).chunks;
        var chunks := SplitLoop(soup, maxLen).chunks;
        assert chunks == [o.result.chunk] + rest;
        assert ChunkFits(o.result.chunk, maxLen);
      }
    }
  }

  /** The length bound on what `split_message` yields: with no empty elements,
      every fragment is at most `maxLen` characters long. */
  lemma FragmentsFit(source: string, soup: Node, maxLen: int)
    requires soup.Element? && ChildrenDense(soup)
    ensures var fs := Fragments(source, soup, maxLen).fragments;
            forall i | 0 <= i < |fs| :: |fs[i]| <= maxLen
  {
    if |source| > maxLen {
      var chunks := SplitLoop(soup, maxLen).chunks;
      LoopChunksFit(soup, maxLen);
      forall i | 0 <= i < |chunks| ensures |Render(chunks[i])| <= maxLen {
        assert chunks[i] in chunks;
        SerLenIsLength(chunks[i]);
        assert |Strip(Serialize(chunks[i]))| <= |Serialize(chunks[i])|;
      }
      RendersAt(chunks);
    }
  }

  lemma {:induction false} RendersAt(chunks: seq<Node>)
    ensures |Renders(chunks)| == |chunks|
    ensures forall i | 0 <= i < |chunks| :: Renders(chunks)[i] == Render(chunks[i])
  {
    if chunks != [] {
      RendersAt(chunks[1..]);
      assert Renders(chunks) == [Render(chunks[0])] + Renders(chunks[1..]);
    }
  }
}
