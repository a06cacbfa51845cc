/**
 * Part building (`splitIntoParts`, index.ts:44-76): for each section descriptor, slice
 * the source lines, demote the heading markers by the section's depth, join the lines,
 * collect the anchors the content defines, and derive the output path.
 */
module Parts {
  import opened Wrappers
  import opened Text
  import opened Sections

  /** An output unit: one split section's content and the anchors it defines. */
  datatype Part = Part(name: string, parentSections: seq<string>, path: string, content: string, refs: set<string>)

  /** `s.endLine || undefined`: a missing end line and an end line of 0 both mean "to the end". */
  function EndArg(endLine: Option<int>): Option<int>
  {
    if endLine == None || endLine == Some(0) then None else endLine
  }

  /** `sourceLines.slice(s.startLine, s.endLine || undefined)`. */
  function SliceOf(source: seq<string>, d: Desc): seq<string>
  {
    Slice(source, d.startLine, EndArg(d.endLine))
  }

  // ---------------------------------------------------------------------------
  // Heading demotion

  /** The number of `=` characters a line starts with. */
  function HeadingRun(l: string): nat
  {
    LeadingRun(l, '=')
  }

  /** The test of the pattern `^=(=+ .*)`: two or more `=` followed by a space. */
  predicate IsHeadingMarker(l: string)
  {
    var k := HeadingRun(l);
    2 <= k < |l| && l[k] == ' '
  }

  /** `l.replace(/^=(=+ .*)/, "$1")`: a matching line loses its first character. */
  function StripOnce(l: string): string
  {
    if IsHeadingMarker(l) then l[1..] else l
  }

  function Min(a: int, b: int): int
  {
    if a <= b then a else b
  }

  /** A line after `n` rounds of stripping: at most `n` `=` go, and never the last one. */
  function Demoted(l: string, n: nat): string
  {
    if IsHeadingMarker(l) then l[Min(n, HeadingRun(l) - 1)..] else l
  }

  /** Dropping `j` characters of the `=` run shortens the run by `j`. */
  lemma RunOfSuffix(l: string, j: nat)
    requires j <= HeadingRun(l)
    ensures HeadingRun(l[j..]) == HeadingRun(l) - j
  {
    LeadingRunIs(l[j..], '=', HeadingRun(l) - j);
  }

  /** One more round of the replacement takes `Demoted(l, j)` to `Demoted(l, j + 1)`. */
  lemma StripOnceStep(l: string, j: nat)
    ensures StripOnce(Demoted(l, j)) == Demoted(l, j + 1)
  {
    if IsHeadingMarker(l) {
      var k := HeadingRun(l);
      var m := Min(j, k - 1);
      RunOfSuffix(l, m);
      assert l[m..][HeadingRun(l[m..])] == l[k];
      if j < k - 1 {
        assert l[m..][1..] == l[m + 1..];
      }
    }
  }

  /**
   * The loops of index.ts:50-57 over a fresh copy of the slice: every line gets
   * `depth + 1` rounds of the replacement, in place.
   */
  method DemoteHeadings(lines: array<string>, depth: nat)
    modifies lines
    ensures forall i :: 0 <= i < lines.Length ==> lines[i] == Demoted(old(lines[i]), depth + 1)
  {
    for i := 0 to lines.Length
      invariant forall k :: 0 <= k < i ==> lines[k] == Demoted(old(lines[k]), depth + 1)
      invariant forall k :: i <= k < lines.Length ==> lines[k] == old(lines[k])
    {
      ghost var original := lines[i];
      var l := lines[i];
      for j := 0 to depth + 1
        invariant l == Demoted(original, j)
        modifies {}
      {
        StripOnceStep(original, j);
        l := StripOnce(l);
      }
      lines[i] := l;
    }
  }

  /**
   * What demotion does to one line: a line that is not a heading marker is unchanged;
   * a heading with a run of `k` markers loses exactly `min(n, k - 1)` of them, keeps at
   * least one, and the text after the run is untouched.
   */
  lemma DemotionShape(l: string, n: nat)
    ensures !IsHeadingMarker(l) ==> Demoted(l, n) == l
    ensures IsHeadingMarker(l) ==>
      var k := HeadingRun(l);
      var r := Demoted(l, n);
      HeadingRun(r) == k - Min(n, k - 1) >= 1 && r[HeadingRun(r)..] == l[k..]
  {
    if IsHeadingMarker(l) {
      var k := HeadingRun(l);
      var m := Min(n, k - 1);
      RunOfSuffix(l, m);
      assert l[m..][k - m..] == l[k..];
    }
  }

  /** Demoting by `a` and then by `b` is demoting by `a + b`. */
  lemma DemotionComposes(l: string, a: nat, b: nat)
    ensures Demoted(Demoted(l, a), b) == Demoted(l, a + b)
  {
    if IsHeadingMarker(l) {
      if a < HeadingRun(l) - 1 {
        ComposesWithinRun(l, a, b);
      } else {
        ComposesPastRun(l, a, b);
      }
    }
  }

  /** When the first demotion leaves more than one marker, the second continues along the same run. */
  lemma ComposesWithinRun(l: string, a: nat, b: nat)
    requires IsHeadingMarker(l) && a < HeadingRun(l) - 1
    ensures Demoted(Demoted(l, a), b) == Demoted(l, a + b)
  {
    var k := HeadingRun(l);
    var l' := l[a..];
    MarkerSuffix(l, a);
    assert Demoted(l, a) == l';
    var m' := Min(b, k - a - 1);
    assert Demoted(l', b) == l'[m'..];
    assert l'[m'..] == l[a + m'..];
    assert Demoted(l, a + b) == l[a + m'..];
  }

  /** When the first demotion leaves a single marker, the second changes nothing. */
  lemma ComposesPastRun(l: string, a: nat, b: nat)
    requires IsHeadingMarker(l) && a >= HeadingRun(l) - 1
    ensures Demoted(Demoted(l, a), b) == Demoted(l, a + b)
  {
    var k := HeadingRun(l);
    var l' := l[k - 1..];
    MarkerSuffix(l, k - 1);
    assert Demoted(l, a) == l';
    assert Demoted(l', b) == l';
    assert Demoted(l, a + b) == l';
  }

  /** Dropping `j` markers of a heading leaves a run of `k - j`, still a heading marker unless one is left. */
  lemma MarkerSuffix(l: string, j: nat)
    requires IsHeadingMarker(l) && j <= HeadingRun(l) - 1
    ensures HeadingRun(l[j..]) == HeadingRun(l) - j
    ensures IsHeadingMarker(l[j..]) <==> j < HeadingRun(l) - 1
  {
    var k := HeadingRun(l);
    RunOfSuffix(l, j);
    assert l[j..][k - j] == l[k];
  }

  /**
   * Depth consistency: in a part at ancestor depth `d` the section's own heading
   * (`d + 2` markers) becomes the document title (`=`), and a heading `e` levels below it
   * keeps its `e` extra markers.
   */
  lemma HeadingsShiftByDepth(d: nat, e: nat, title: string)
    ensures Demoted(Repeat('=', d + 2 + e) + " " + title, d + 1) == Repeat('=', e + 1) + " " + title
  {
    var l := Repeat('=', d + 2 + e) + " " + title;
    LeadingRunIs(l, '=', d + 2 + e);
    assert l[d + 1..] == Repeat('=', e + 1) + " " + title;
  }

  // ---------------------------------------------------------------------------
  // Paths

  /** index.ts:63-64: the split ancestors as directories, the name as the file. */
  function PathOf(parents: seq<string>, name: string): string
  {
    var basePath := if |parents| == 0 then "" else Join(parents, '/') + "/";
    basePath + name + ".adoc"
  }

  /** The path is the whole chain, ancestors then the section itself, joined by `/`, plus `.adoc`. */
  lemma PathIsJoinedChain(parents: seq<string>, name: string)
    ensures PathOf(parents, name) == Join(parents + [name], '/') + ".adoc"
  {
    if |parents| > 0 {
      JoinAppend(parents, [name], '/');
    }
  }

  /**
   * Paths do not collide: when no name contains `/` (slugs never do), two parts share a
   * path only if they have the same ancestors and the same name.
   */
  lemma PathInjective(p1: seq<string>, n1: string, p2: seq<string>, n2: string)
    requires forall i :: 0 <= i < |p1| ==> '/' !in p1[i]
    requires forall i :: 0 <= i < |p2| ==> '/' !in p2[i]
    requires '/' !in n1 && '/' !in n2
    requires PathOf(p1, n1) == PathOf(p2, n2)
    ensures p1 == p2 && n1 == n2
  {
    PathIsJoinedChain(p1, n1);
    PathIsJoinedChain(p2, n2);
    var c1, c2 := p1 + [n1], p2 + [n2];
    var j1, j2 := Join(c1, '/'), Join(c2, '/');
    var path := PathOf(p1, n1);
    assert j1 == path[..|path| - 5] == j2;
    SplitJoin(c1, '/');
    SplitJoin(c2, '/');
    assert c1 == c2;
    assert p1 == c1[..|c1| - 1];
  }

  // ---------------------------------------------------------------------------
  // Parts

  /** The slice of a descriptor with every line demoted by its depth. */
  function DemotedSlice(d: Desc, source: seq<string>): (r: seq<string>)
  {
    var lines := SliceOf(source, d);
    seq(|lines|, i requires 0 <= i < |lines| => Demoted(lines[i], |d.parentSections| + 1))
  }

  /** The part built for one descriptor; `refsOf` stands for re-parsing content and listing its anchors. */
  function PartOf(d: Desc, source: seq<string>, refsOf: string -> set<string>): Part
  {
    var content := Join(DemotedSlice(d, source), '\n');
    Part(d.name, d.parentSections, PathOf(d.parentSections, d.name), content, refsOf(content))
  }

  /** The parts of a whole document. */
  function DocumentParts(doc: seq<Sec>, source: seq<string>, refsOf: string -> set<string>): (r: seq<Part>)
    ensures |r| == |DocumentSections(doc)|
  {
    var ds := DocumentSections(doc);
    seq(|ds|, i requires 0 <= i < |ds| => PartOf(ds[i], source, refsOf))
  }

  /** `splitIntoParts(doc)`: one part per descriptor of `getSections(doc, [], 0)`, in order. */
  method SplitIntoParts(doc: seq<Sec>, sourceLines: seq<string>, refsOf: string -> set<string>)
    returns (parts: seq<Part>)
    ensures parts == DocumentParts(doc, sourceLines, refsOf)
  {
    var sections := GetSections(doc, [], 0);
    ChainedIsUnique(sections, DocumentSections(doc));
    parts := [];
    for n := 0 to |sections|
      invariant |parts| == n
      invariant forall i :: 0 <= i < n ==> parts[i] == PartOf(sections[i], sourceLines, refsOf)
    {
      var part := BuildPart(sections[n], sourceLines, refsOf);
      parts := parts + [part];
    }
    PartsOfAll(parts, sections, sourceLines, refsOf);
  }

  lemma PartsOfAll(parts: seq<Part>, ds: seq<Desc>, source: seq<string>, refsOf: string -> set<string>)
    requires |parts| == |ds|
    requires forall i :: 0 <= i < |ds| ==> parts[i] == PartOf(ds[i], source, refsOf)
    ensures parts == seq(|ds|, i requires 0 <= i < |ds| => PartOf(ds[i], source, refsOf))
  {
  }

  /** The body of the loop of `splitIntoParts` (index.ts:48-72) for one descriptor. */
  method BuildPart(s: Desc, sourceLines: seq<string>, refsOf: string -> set<string>) returns (part: Part)
    ensures part == PartOf(s, sourceLines, refsOf)
  {
    var slice := Slice(sourceLines, s.startLine, if s.endLine == None || s.endLine == Some(0) then None else s.endLine);
    var lines := new string[|slice|](i requires 0 <= i < |slice| => slice[i]);
    DemoteHeadings(lines, |s.parentSections|);
    assert lines[..] == DemotedSlice(s, sourceLines);
    var partContent := Join(lines[..], '\n');
    var refs := refsOf(partContent);
    var basePath := if |s.parentSections| == 0 then "" else Join(s.parentSections, '/') + "/";
    var path := basePath + s.name + ".adoc";
    part := Part(s.name, s.parentSections, path, Join(lines[..], '\n'), refs);
  }

  /** The backward pass's result is determined by the descriptors it starts from. */
  lemma ChainedIsUnique(a: seq<Desc>, b: seq<Desc>)
    requires Unresolved(a) == Unresolved(b)
    requires EndLinesChained(a) && EndLinesChained(b)
    ensures a == b
  {
    assert |a| == |Unresolved(a)| == |b|;
    forall i | 0 <= i < |a|
      ensures a[i] == b[i]
    {
      assert Unresolved(a)[i] == Unresolved(b)[i];
      if i + 1 < |a| {
        assert Unresolved(a)[i + 1] == Unresolved(b)[i + 1];
      }
    }
  }

  // ---------------------------------------------------------------------------
  // Slices tile the source

  /** The undemoted slices of a list of descriptors. */
  function Slices(source: seq<string>, ds: seq<Desc>): (r: seq<seq<string>>)
    ensures |r| == |ds|
  {
    seq(|ds|, i requires 0 <= i < |ds| => SliceOf(source, ds[i]))
  }

  /** Start lines strictly increase along the list and stay within the source. */
  predicate WellPlaced(source: seq<string>, ds: seq<Desc>)
  {
    |ds| >= 1 && StartsIncrease(ds) && 0 <= ds[0].startLine && ds[|ds| - 1].startLine <= |source|
  }

  /** A descriptor that is not last covers exactly the lines up to its successor's start. */
  lemma SliceOfInner(source: seq<string>, ds: seq<Desc>, i: nat)
    requires WellPlaced(source, ds) && EndLinesChained(ds)
    requires i + 1 < |ds|
    ensures 0 <= ds[i].startLine < ds[i + 1].startLine <= |source|
    ensures SliceOf(source, ds[i]) == source[ds[i].startLine..ds[i + 1].startLine]
  {
  }

  /** The first `n` slices, end to end, are the source from the first start to the `n`-th start. */
  lemma {:induction false} SlicesTilePrefix(source: seq<string>, ds: seq<Desc>, n: nat)
    requires WellPlaced(source, ds) && EndLinesChained(ds)
    requires 1 <= n < |ds|
    ensures ds[0].startLine <= ds[n].startLine <= |source|
    ensures Flatten(Slices(source, ds)[..n]) == source[ds[0].startLine..ds[n].startLine]
  {
    var xss := Slices(source, ds)[..n];
    SliceOfInner(source, ds, n - 1);
    assert xss[..n - 1] == Slices(source, ds)[..n - 1];
    if n == 1 {
      assert Flatten(xss) == Flatten(xss[..0]) + xss[0];
    } else {
      SlicesTilePrefix(source, ds, n - 1);
      assert source[ds[0].startLine..ds[n].startLine]
        == source[ds[0].startLine..ds[n - 1].startLine] + source[ds[n - 1].startLine..ds[n].startLine];
    }
  }

  /**
   * The undemoted slices of consecutive descriptors tile the source: end to end they
   * are exactly the source from the first descriptor's start on, with no gap or overlap.
   */
  lemma SlicesTile(source: seq<string>, ds: seq<Desc>)
    requires WellPlaced(source, ds) && EndLinesChained(ds)
    ensures Flatten(Slices(source, ds)) == source[ds[0].startLine..]
  {
    var xss := Slices(source, ds);
    var last := |ds| - 1;
    assert xss[..last] == xss[..|xss| - 1];
    assert xss[last] == source[ds[last].startLine..];
    if last == 0 {
      assert Flatten(xss) == Flatten(xss[..0]) + xss[0];
    } else {
      SlicesTilePrefix(source, ds, last);
      assert source[ds[0].startLine..]
        == source[ds[0].startLine..ds[last].startLine] + source[ds[last].startLine..];
    }
  }

  /**
   * The same at the level of content strings: joining the parts' undemoted contents with
   * newlines reproduces the source from the first section on, when the last section is
   * not empty.
   */
  lemma ContentsReassemble(source: seq<string>, ds: seq<Desc>)
    requires WellPlaced(source, ds) && EndLinesChained(ds)
    requires ds[|ds| - 1].startLine < |source|
    ensures Join(seq(|ds|, i requires 0 <= i < |ds| => Join(SliceOf(source, ds[i]), '\n')), '\n')
         == Join(source[ds[0].startLine..], '\n')
  {
    var xss := Slices(source, ds);
    SlicesNonEmpty(source, ds);
    SlicesTile(source, ds);
    JoinFlatten(xss, '\n');
    assert seq(|xss|, i requires 0 <= i < |xss| => Join(xss[i], '\n'))
        == seq(|ds|, i requires 0 <= i < |ds| => Join(SliceOf(source, ds[i]), '\n'));
  }

  /** When the last section is not empty, no slice is. */
  lemma SlicesNonEmpty(source: seq<string>, ds: seq<Desc>)
    requires WellPlaced(source, ds) && EndLinesChained(ds)
    requires ds[|ds| - 1].startLine < |source|
    ensures forall i :: 0 <= i < |Slices(source, ds)| ==> |Slices(source, ds)[i]| >= 1
  {
    var xss := Slices(source, ds);
    forall i | 0 <= i < |xss|
      ensures |xss[i]| >= 1
    {
      if i + 1 < |ds| {
        SliceOfInner(source, ds, i);
      }
    }
  }

  /**
   * For a whole document whose sections appear in increasing line order, with the first
   * heading on line 2 or later and every heading within the source: the parts' undemoted
   * slices tile the source from two lines above the first heading to its end.
   */
  lemma DocumentSlicesTile(doc: seq<Sec>, source: seq<string>)
    requires |doc| >= 1 && Increasing(SectionLines(doc))
    requires forall i :: 0 <= i < |SectionLines(doc)| ==> 2 <= SectionLines(doc)[i] <= |source| + 2
    ensures |DocumentSections(doc)| >= 1 && DocumentSections(doc)[0].startLine == doc[0].line - 2
    ensures 0 <= doc[0].line - 2 <= |source|
    ensures Flatten(Slices(source, DocumentSections(doc))) == source[doc[0].line - 2..]
  {
    DocumentSectionsWellPlaced(doc, source);
    SlicesTile(source, DocumentSections(doc));
  }

  lemma DocumentSectionsWellPlaced(doc: seq<Sec>, source: seq<string>)
    requires |doc| >= 1 && Increasing(SectionLines(doc))
    requires forall i :: 0 <= i < |SectionLines(doc)| ==> 2 <= SectionLines(doc)[i] <= |source| + 2
    ensures WellPlaced(source, DocumentSections(doc)) && EndLinesChained(DocumentSections(doc))
    ensures DocumentSections(doc)[0].startLine == doc[0].line - 2
  {
    var ex := Extract(doc, [], 0);
    var ds := DocumentSections(doc);
    ExtractPlaced(doc, source);
    SameStarts(ds, ex);
    assert ds[0].startLine == ex[0].startLine && ds[|ds| - 1].startLine == ex[|ex| - 1].startLine;
  }

  /** The extracted descriptors of such a document start in order, from the first heading, within the source. */
  lemma ExtractPlaced(doc: seq<Sec>, source: seq<string>)
    requires |doc| >= 1 && Increasing(SectionLines(doc))
    requires forall i :: 0 <= i < |SectionLines(doc)| ==> 2 <= SectionLines(doc)[i] <= |source| + 2
    ensures var ex := Extract(doc, [], 0);
      |ex| >= 1 && WellPlaced(source, ex) && ex[0].startLine == doc[0].line - 2
  {
    var ex := Extract(doc, [], 0);
    SectionLinesStartWithFirst(doc);
    ExtractStartsWithFirst(doc, [], 0);
    StartsFollowDocumentOrder(doc, [], 0);
    LastStartWithin(doc, source);
  }

  lemma LastStartWithin(doc: seq<Sec>, source: seq<string>)
    requires |doc| >= 1
    requires forall i :: 0 <= i < |SectionLines(doc)| ==> 2 <= SectionLines(doc)[i] <= |source| + 2
    ensures var ex := Extract(doc, [], 0);
      |ex| >= 1 && ex[|ex| - 1].startLine <= |source|
  {
    var ex := Extract(doc, [], 0);
    ExtractStartsWithFirst(doc, [], 0);
    StartsComeFromSections(doc, [], 0);
    assert ex[|ex| - 1] in ex;
    var k :| 0 <= k < |SectionLines(doc)| && SectionLines(doc)[k] == ex[|ex| - 1].startLine + 2;
  }

  /** Clearing end lines keeps start lines, so lists with the same skeleton start alike. */
  lemma SameStarts(a: seq<Desc>, b: seq<Desc>)
    requires Unresolved(a) == Unresolved(b)
    ensures |a| == |b| && forall i :: 0 <= i < |a| ==> a[i].startLine == b[i].startLine
    ensures StartsIncrease(a) <==> StartsIncrease(b)
  {
    assert |a| == |Unresolved(a)|;
    forall i | 0 <= i < |a|
      ensures a[i].startLine == b[i].startLine
    {
      assert Unresolved(a)[i] == Unresolved(b)[i];
    }
  }

  lemma {:induction false} SectionLinesStartWithFirst(ks: seq<Sec>)
    requires |ks| >= 1
    ensures |SectionLines(ks)| >= 1 && SectionLines(ks)[0] == ks[0].line
    decreases |ks|
  {
    if |ks| > 1 {
      SectionLinesStartWithFirst(ks[..|ks| - 1]);
    }
  }

  /** The first descriptor of a non-empty list of siblings is the first sibling's own. */
  lemma {:induction false} ExtractStartsWithFirst(ks: seq<Sec>, parents: seq<string>, countdown: int)
    requires |ks| >= 1
    ensures |Extract(ks, parents, countdown)| >= 1
    ensures Extract(ks, parents, countdown)[0] == Opened(ks[0], parents)
    decreases |ks|
  {
    if |ks| > 1 {
      ExtractStartsWithFirst(ks[..|ks| - 1], parents, countdown);
    }
  }
}
