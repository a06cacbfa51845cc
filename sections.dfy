/**
 * Section extraction (`getSections`, index.ts:79-105): a walk of the parsed section
 * tree that emits one descriptor per visited section, in pre-order, recursing into a
 * section's children only while the split countdown allows it, followed by a backward
 * pass that sets each descriptor's end line to the next descriptor's start line.
 */
module Sections {
  import opened Wrappers

  /**
   * A section as the document parser reports it: its slugged name, its 1-based source
   * line, the parsed value of its `split` attribute (None when the attribute is absent
   * or empty), and its child sections in document order.
   */
  datatype Sec = Sec(name: string, line: int, split: Option<int>, kids: seq<Sec>)

  /**
   * A section descriptor: the names of the split ancestors it sits under, the source
   * index its slice starts at, and the index it ends at (None: end of the document).
   */
  datatype Desc = Desc(name: string, parentSections: seq<string>, startLine: int, endLine: Option<int>)

  /** The countdown that governs `s`'s children: its own attribute when set, else the inherited one. */
  function Effective(s: Sec, countdown: int): int
  {
    if s.split.Some? then s.split.value else countdown
  }

  /** The descriptor a visited section gets before its end line is known. */
  function Opened(s: Sec, parents: seq<string>): Desc
  {
    Desc(s.name, parents, s.line - 2, None)
  }

  /**
   * The descriptors of one visited section: its own, then those of its children when
   * the effective countdown is positive, under one more ancestor and one less countdown.
   */
  function ExtractNode(s: Sec, parents: seq<string>, countdown: int): (r: seq<Desc>)
    ensures |r| >= 1 && r[0] == Opened(s, parents)
    ensures forall i :: 0 <= i < |r| ==> parents <= r[i].parentSections && r[i].endLine.None?
    decreases s, 1
  {
    var effective := Effective(s, countdown);
    [Opened(s, parents)]
      + (if effective > 0 then Extract(s.kids, parents + [s.name], effective - 1) else [])
  }

  /** The descriptors of a list of sibling sections, in document order (pre-order overall). */
  function Extract(ks: seq<Sec>, parents: seq<string>, countdown: int): (r: seq<Desc>)
    ensures forall i :: 0 <= i < |r| ==> parents <= r[i].parentSections && r[i].endLine.None?
    decreases ks, 0
  {
    if |ks| == 0 then []
    else Extract(ks[..|ks| - 1], parents, countdown) + ExtractNode(ks[|ks| - 1], parents, countdown)
  }

  /** The descriptors with every end line cleared: what the descriptors were before the backward pass. */
  function Unresolved(ds: seq<Desc>): (r: seq<Desc>)
    ensures |r| == |ds|
  {
    seq(|ds|, i requires 0 <= i < |ds| => ds[i].(endLine := None))
  }

  /** Each end line is the next descriptor's start line, and the last is None. */
  predicate EndLinesChained(ds: seq<Desc>)
  {
    (forall i :: 0 <= i < |ds| - 1 ==> ds[i].endLine == Some(ds[i + 1].startLine))
    && (|ds| > 0 ==> ds[|ds| - 1].endLine.None?)
  }

  /** The result of the backward pass over `ds`. */
  function WithEndLines(ds: seq<Desc>): (r: seq<Desc>)
    ensures Unresolved(r) == Unresolved(ds)
    ensures EndLinesChained(r)
  {
    seq(|ds|, i requires 0 <= i < |ds| =>
      ds[i].(endLine := if i + 1 < |ds| then Some(ds[i + 1].startLine) else None))
  }

  /** The descriptors that splitting a whole document uses: extraction from the top with countdown 0. */
  function DocumentSections(doc: seq<Sec>): seq<Desc>
  {
    WithEndLines(Extract(doc, [], 0))
  }

  /**
   * `getSections(block, parentSections, splitCountdown)`. Each recursive call also runs
   * the backward pass over its own list; the caller's pass then overwrites those end lines.
   */
  method GetSections(ks: seq<Sec>, parents: seq<string>, countdown: int) returns (sections: seq<Desc>)
    ensures Unresolved(sections) == Extract(ks, parents, countdown)
    ensures EndLinesChained(sections)
    decreases ks
  {
    sections := [];
    for i := 0 to |ks|
      invariant Unresolved(sections) == Extract(ks[..i], parents, countdown)
    {
      var s := ks[i];
      var section := Desc(s.name, parents, s.line - 2, None);
      var subSections := [];
      var effective := if s.split.Some? then s.split.value else countdown;
      if effective > 0 {
        subSections := GetSections(s.kids, parents + [s.name], effective - 1);
      }
      var pushed := [section] + subSections;
      NodeDescriptors(s, parents, countdown, subSections);
      UnresolvedAppend(sections, pushed);
      ExtractPrefix(ks, i, parents, countdown);
      sections := sections + pushed;
    }
    assert ks[..|ks|] == ks;
    sections := ChainEndLines(sections);
  }

  /** A visited section contributes its own descriptor, then those its subtree yielded when it was split. */
  lemma NodeDescriptors(s: Sec, parents: seq<string>, countdown: int, sub: seq<Desc>)
    requires Effective(s, countdown) > 0 ==> Unresolved(sub) == Extract(s.kids, parents + [s.name], Effective(s, countdown) - 1)
    requires Effective(s, countdown) <= 0 ==> sub == []
    ensures Unresolved([Opened(s, parents)] + sub) == ExtractNode(s, parents, countdown)
  {
    UnresolvedAppend([Opened(s, parents)], sub);
  }

  /** Extending the prefix by one section extends the descriptors by that section's own. */
  lemma ExtractPrefix(ks: seq<Sec>, i: nat, parents: seq<string>, countdown: int)
    requires i < |ks|
    ensures Extract(ks[..i + 1], parents, countdown)
      == Extract(ks[..i], parents, countdown) + ExtractNode(ks[i], parents, countdown)
  {
    assert ks[..i + 1][..i] == ks[..i];
  }

  /** The backward loop of `getSections` (index.ts:98-103), threading the start line of the successor. */
  method ChainEndLines(ds: seq<Desc>) returns (sections: seq<Desc>)
    ensures Unresolved(sections) == Unresolved(ds)
    ensures EndLinesChained(sections)
  {
    sections := ds;
    var lastLineNumber: Option<int> := None;
    for i := 0 to |ds|
      invariant SameButEnd(sections, ds)
      invariant lastLineNumber == if i == 0 then None else Some(ds[|ds| - i].startLine)
      invariant ChainedFrom(sections, ds, |ds| - i)
    {
      var k := |sections| - i - 1;
      ChainStep(sections, ds, k);
      sections := sections[k := sections[k].(endLine := lastLineNumber)];
      lastLineNumber := Some(sections[k].startLine);
    }
    ChainedFromStart(sections, ds);
  }

  /** `a` is `b` with (possibly) other end lines. */
  predicate SameButEnd(a: seq<Desc>, b: seq<Desc>)
  {
    |a| == |b| && forall k :: 0 <= k < |a| ==> a[k] == b[k].(endLine := a[k].endLine)
  }

  /** From index `j` on, the end lines of `a` are the start lines of the successors in `ds`. */
  predicate ChainedFrom(a: seq<Desc>, ds: seq<Desc>, j: int)
    requires |a| == |ds|
  {
    forall k :: 0 <= j <= k < |ds| ==> a[k].endLine == if k + 1 < |ds| then Some(ds[k + 1].startLine) else None
  }

  /** One step of the backward loop keeps the other fields and extends the chained suffix by one. */
  lemma ChainStep(a: seq<Desc>, ds: seq<Desc>, k: int)
    requires 0 <= k < |ds| && SameButEnd(a, ds) && ChainedFrom(a, ds, k + 1)
    ensures var e := if k + 1 < |ds| then Some(ds[k + 1].startLine) else None;
      var a' := a[k := a[k].(endLine := e)];
      SameButEnd(a', ds) && ChainedFrom(a', ds, k) && a'[k].startLine == ds[k].startLine
  {
  }

  lemma ChainedFromStart(a: seq<Desc>, ds: seq<Desc>)
    requires SameButEnd(a, ds) && ChainedFrom(a, ds, 0)
    ensures Unresolved(a) == Unresolved(ds) && EndLinesChained(a)
  {
    assert forall k :: 0 <= k < |a| ==> Unresolved(a)[k] == Unresolved(ds)[k];
  }

  lemma UnresolvedAppend(a: seq<Desc>, b: seq<Desc>)
    ensures Unresolved(a + b) == Unresolved(a) + Unresolved(b)
  {
  }

  /**
   * Splitting is opt-in: with a non-positive countdown (the document-level call passes 0)
   * and no positive `split` attribute on the top-level sections, each top-level section
   * yields exactly its own descriptor, in order, and nothing below it is extracted.
   */
  lemma {:induction false} OptInByDefault(ks: seq<Sec>, parents: seq<string>, countdown: int)
    requires countdown <= 0
    requires forall i :: 0 <= i < |ks| ==> Effective(ks[i], countdown) <= 0
    ensures Extract(ks, parents, countdown) == seq(|ks|, i requires 0 <= i < |ks| => Opened(ks[i], parents))
    decreases |ks|
  {
    if |ks| > 0 {
      var init := ks[..|ks| - 1];
      OptInByDefault(init, parents, countdown);
    }
  }

  /**
   * A section's own `split` attribute replaces whatever countdown it inherits; an
   * attribute that is not positive (0, negative, or unparsable) keeps its children in its
   * own slice even when an ancestor's countdown is still running.
   */
  lemma AttributeOverridesCountdown(s: Sec, parents: seq<string>, inherited: int, other: int)
    requires s.split.Some?
    ensures ExtractNode(s, parents, inherited) == ExtractNode(s, parents, other)
    ensures s.split.value <= 0 ==> ExtractNode(s, parents, inherited) == [Opened(s, parents)]
  {
  }

  /** No section anywhere in the forest carries a `split` attribute. */
  ghost predicate NoAttributes(ks: seq<Sec>)
    decreases ks, 0
  {
    forall i :: 0 <= i < |ks| ==> NodeHasNoAttributes(ks[i])
  }

  ghost predicate NodeHasNoAttributes(s: Sec)
    decreases s, 1
  {
    s.split.None? && NoAttributes(s.kids)
  }

  /**
   * Without attributes, the inherited countdown bounds how deep splitting goes: no
   * descriptor sits under more than `countdown` split ancestors below `parents`.
   */
  lemma {:induction false} CountdownBoundsDepth(ks: seq<Sec>, parents: seq<string>, countdown: nat)
    requires NoAttributes(ks)
    ensures forall d :: d in Extract(ks, parents, countdown) ==> |d.parentSections| <= |parents| + countdown
    decreases ks, 0
  {
    if |ks| > 0 {
      CountdownBoundsDepth(ks[..|ks| - 1], parents, countdown);
      NodeCountdownBoundsDepth(ks[|ks| - 1], parents, countdown);
    }
  }

  lemma {:induction false} NodeCountdownBoundsDepth(s: Sec, parents: seq<string>, countdown: nat)
    requires NodeHasNoAttributes(s)
    ensures forall d :: d in ExtractNode(s, parents, countdown) ==> |d.parentSections| <= |parents| + countdown
    decreases s, 1
  {
    if countdown > 0 {
      CountdownBoundsDepth(s.kids, parents + [s.name], countdown - 1);
    }
  }

  /** The source lines of every section of the forest, in pre-order (document order for a parsed document). */
  function SectionLines(ks: seq<Sec>): seq<int>
    decreases ks, 0
  {
    if |ks| == 0 then [] else SectionLines(ks[..|ks| - 1]) + NodeSectionLines(ks[|ks| - 1])
  }

  function NodeSectionLines(s: Sec): seq<int>
    decreases s, 1
  {
    [s.line] + SectionLines(s.kids)
  }

  predicate Increasing(xs: seq<int>)
  {
    forall i, j :: 0 <= i < j < |xs| ==> xs[i] < xs[j]
  }

  predicate StartsIncrease(ds: seq<Desc>)
  {
    forall i, j :: 0 <= i < j < |ds| ==> ds[i].startLine < ds[j].startLine
  }

  /** Every descriptor starts two lines above the source line of some section of the forest. */
  lemma {:induction false} StartsComeFromSections(ks: seq<Sec>, parents: seq<string>, countdown: int)
    ensures forall d :: d in Extract(ks, parents, countdown) ==> d.startLine + 2 in SectionLines(ks)
    decreases ks, 0
  {
    if |ks| > 0 {
      StartsComeFromSections(ks[..|ks| - 1], parents, countdown);
      NodeStartsComeFromSections(ks[|ks| - 1], parents, countdown);
    }
  }

  lemma {:induction false} NodeStartsComeFromSections(s: Sec, parents: seq<string>, countdown: int)
    ensures forall d :: d in ExtractNode(s, parents, countdown) ==> d.startLine + 2 in NodeSectionLines(s)
    decreases s, 1
  {
    var effective := Effective(s, countdown);
    if effective > 0 {
      StartsComeFromSections(s.kids, parents + [s.name], effective - 1);
    }
  }

  /**
   * When the sections' lines increase in document order, so do the descriptors' start
   * lines: the flat list is in document order, which the backward pass relies on.
   */
  lemma {:induction false} StartsFollowDocumentOrder(ks: seq<Sec>, parents: seq<string>, countdown: int)
    requires Increasing(SectionLines(ks))
    ensures StartsIncrease(Extract(ks, parents, countdown))
    decreases ks, 0
  {
    if |ks| > 0 {
      var init, last := ks[..|ks| - 1], ks[|ks| - 1];
      var a, b := SectionLines(init), NodeSectionLines(last);
      assert SectionLines(ks) == a + b;
      IncreasingParts(a, b);
      StartsFollowDocumentOrder(init, parents, countdown);
      NodeStartsFollowDocumentOrder(last, parents, countdown);
      StartsComeFromSections(init, parents, countdown);
      NodeStartsComeFromSections(last, parents, countdown);
      var x, y := Extract(init, parents, countdown), ExtractNode(last, parents, countdown);
      forall i, j | 0 <= i < |x| && 0 <= j < |y|
        ensures x[i].startLine < y[j].startLine
      {
        assert x[i] in x && y[j] in y;
      }
    }
  }

  lemma {:induction false} NodeStartsFollowDocumentOrder(s: Sec, parents: seq<string>, countdown: int)
    requires Increasing(NodeSectionLines(s))
    ensures StartsIncrease(ExtractNode(s, parents, countdown))
    decreases s, 1
  {
    var effective := Effective(s, countdown);
    if effective > 0 {
      var sub := Extract(s.kids, parents + [s.name], effective - 1);
      IncreasingParts([s.line], SectionLines(s.kids));
      StartsFollowDocumentOrder(s.kids, parents + [s.name], effective - 1);
      StartsComeFromSections(s.kids, parents + [s.name], effective - 1);
      forall j | 0 <= j < |sub|
        ensures s.line - 2 < sub[j].startLine
      {
        assert sub[j] in sub;
        assert s.line in [s.line];
      }
    }
  }

  lemma IncreasingParts(a: seq<int>, b: seq<int>)
    requires Increasing(a + b)
    ensures Increasing(a) && Increasing(b)
    ensures forall x, y :: x in a && y in b ==> x < y
  {
    forall x, y | x in a && y in b
      ensures x < y
    {
      var i :| 0 <= i < |a| && a[i] == x;
      var j :| 0 <= j < |b| && b[j] == y;
      assert (a + b)[i] == x && (a + b)[|a| + j] == y;
    }
    forall i, j | 0 <= i < j < |a|
      ensures a[i] < a[j]
    {
      assert (a + b)[i] == a[i] && (a + b)[j] == a[j];
    }
    forall i, j | 0 <= i < j < |b|
      ensures b[i] < b[j]
    {
      assert (a + b)[|a| + i] == b[i] && (a + b)[|a| + j] == b[j];
    }
  }
}
