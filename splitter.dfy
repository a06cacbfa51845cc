/**
 * The top level of the script (index.ts:20-42): split the document into parts, rewrite
 * and write each part in order, then write the navigation file.
 */
module Splitter {
  import opened Wrappers
  import opened Text
  import opened Sections
  import opened Parts
  import opened XRefs

  /** A file the script writes: its path and its content. */
  datatype File = File(path: string, content: string)

  /** The outline entry for one part (index.ts:41): one `*` per level, then a link to its path. */
  function NavLine(p: Part): string
  {
    Repeat('*', |p.parentSections| + 1) + " xref:" + p.path + "[]"
  }

  function NavLines(parts: seq<Part>): (r: seq<string>)
    ensures |r| == |parts|
  {
    seq(|parts|, i requires 0 <= i < |parts| => NavLine(parts[i]))
  }

  /** The content of `target/nav.adoc`. */
  function Nav(parts: seq<Part>): string
  {
    Join(NavLines(parts), '\n')
  }

  /**
   * The navigation file has one line per part, in order, and each line starts with as
   * many `*` as the part is deep (its split ancestors plus one), then ` xref:`, the
   * part's path and `[]`; paths carry no line break (slugs never do). Without parts the
   * file is empty.
   */
  lemma NavOutline(parts: seq<Part>)
    requires forall i :: 0 <= i < |parts| ==> '\n' !in parts[i].path
    ensures |parts| == 0 ==> Nav(parts) == ""
    ensures |parts| >= 1 ==> |SplitOn(Nav(parts), '\n')| == |parts|
    ensures |parts| >= 1 ==> forall i :: 0 <= i < |parts| ==>
      var line := SplitOn(Nav(parts), '\n')[i];
      var d := |parts[i].parentSections| + 1;
      LeadingRun(line, '*') == d && line[d..] == " xref:" + parts[i].path + "[]"
  {
    if |parts| == 0 {
      return;
    }
    var lines := NavLines(parts);
    forall i | 0 <= i < |lines|
      ensures '\n' !in lines[i]
    {
      NavLineShape(parts[i]);
    }
    SplitJoin(lines, '\n');
    forall i | 0 <= i < |parts|
      ensures var d := |parts[i].parentSections| + 1;
        LeadingRun(lines[i], '*') == d && lines[i][d..] == " xref:" + parts[i].path + "[]"
    {
      NavLineShape(parts[i]);
    }
  }

  lemma NavLineShape(p: Part)
    requires '\n' !in p.path
    ensures var d := |p.parentSections| + 1;
      '\n' !in NavLine(p) && LeadingRun(NavLine(p), '*') == d && NavLine(p)[d..] == " xref:" + p.path + "[]"
  {
    var d := |p.parentSections| + 1;
    var line := NavLine(p);
    var rest := " xref:" + p.path + "[]";
    assert line == Repeat('*', d) + rest;
    assert line[d..] == rest;
    assert line[d] == ' ';
    LeadingRunIs(line, '*', d);
    assert '\n' !in Repeat('*', d);
    assert '\n' !in rest;
  }

  /** The page file written for a part. */
  function PageFile(part: Part, content: string): File
  {
    File("target/pages/" + part.path, content)
  }

  /**
   * The loop of index.ts:21-39: each part, in order, has its references rewritten and is
   * written; the first part holding a reference no part defines aborts the loop, after
   * the pages of the parts before it were written.
   */
  method WriteParts(parts: seq<Part>) returns (files: seq<File>, err: Option<string>)
    ensures err.None? <==> forall i :: 0 <= i < |parts| ==> Rewrite(parts, parts[i], parts[i].content).Ok?
    ensures err.None? ==> |files| == |parts|
    ensures err.Some? ==>
      |files| < |parts| && Rewrite(parts, parts[|files|], parts[|files|].content) == Err(err.value)
    ensures forall i :: 0 <= i < |files| ==>
      Rewrite(parts, parts[i], parts[i].content).Ok?
      && files[i] == PageFile(parts[i], Rewrite(parts, parts[i], parts[i].content).value)
  {
    files := [];
    for n := 0 to |parts|
      invariant |files| == n
      invariant forall i :: 0 <= i < n ==>
        Rewrite(parts, parts[i], parts[i].content).Ok?
        && files[i] == PageFile(parts[i], Rewrite(parts, parts[i], parts[i].content).value)
    {
      var part := parts[n];
      var transformedContent := Rewrite(parts, part, part.content);
      if transformedContent.Err? {
        err := Some(transformedContent.message);
        return;
      }
      files := files + [File("target/pages/" + part.path, transformedContent.value)];
    }
    err := None;
  }

  /**
   * The whole run: the pages of every part, then `target/nav.adoc`, or, when a
   * reference cannot be resolved, the pages written before the failing part and the error.
   */
  method SplitDocument(doc: seq<Sec>, sourceLines: seq<string>, refsOf: string -> set<string>)
    returns (files: seq<File>, err: Option<string>)
    ensures var parts := DocumentParts(doc, sourceLines, refsOf);
      (err.None? <==> forall i :: 0 <= i < |parts| ==> Rewrite(parts, parts[i], parts[i].content).Ok?)
      && (err.None? ==> |files| == |parts| + 1 && files[|parts|] == File("target/nav.adoc", Nav(parts)))
      && (err.Some? ==>
        |files| < |parts| && Rewrite(parts, parts[|files|], parts[|files|].content) == Err(err.value))
      && (forall i :: 0 <= i < |files| && i < |parts| ==>
        Rewrite(parts, parts[i], parts[i].content).Ok?
        && files[i] == PageFile(parts[i], Rewrite(parts, parts[i], parts[i].content).value))
  {
    var parts := SplitIntoParts(doc, sourceLines, refsOf);
    files, err := WriteParts(parts);
    if err.None? {
      files := files + [File("target/nav.adoc", Nav(parts))];
    }
  }

  /**
   * A document with an unannotated section "intro" on line 3 and a section "setup" on
   * line 7 whose `split` attribute is 1, holding "install" on line 10: "intro" and
   * "setup" become top-level descriptors, "install" one under "setup", and each slice
   * ends where the next begins.
   */
  lemma ScenarioSplitCountdown()
    ensures var doc := [Sec("intro", 3, None, []), Sec("setup", 7, Some(1), [Sec("install", 10, None, [])])];
      DocumentSections(doc)
        == [Desc("intro", [], 1, Some(5)), Desc("setup", [], 5, Some(8)), Desc("install", ["setup"], 8, None)]
  {
    var install := Sec("install", 10, None, []);
    var setup := Sec("setup", 7, Some(1), [install]);
    var doc := [Sec("intro", 3, None, []), setup];
    assert Extract([install], ["setup"], 0) == [Desc("install", ["setup"], 8, None)] by {
      assert [install][..0] == [];
    }
    var none: seq<string> := [];
    assert none + ["setup"] == ["setup"];
    assert ExtractNode(setup, [], 0) == [Desc("setup", [], 5, None), Desc("install", ["setup"], 8, None)];
    assert doc[..1][..0] == [];
    assert Extract(doc[..1], [], 0) == [Desc("intro", [], 1, None)];
    var ex := Extract(doc, [], 0);
    assert ex == [Desc("intro", [], 1, None), Desc("setup", [], 5, None), Desc("install", ["setup"], 8, None)];
    var r := WithEndLines(ex);
    assert r[0] == Desc("intro", [], 1, Some(5));
    assert r[1] == Desc("setup", [], 5, Some(8));
    assert r[2] == Desc("install", ["setup"], 8, None);
  }

  /**
   * The same document with a bare `[%split]` on "setup": that sets an option, not a value
   * of the `split` attribute, so the attribute is absent, the countdown stays 0, and
   * "install" stays inside the slice of "setup".
   */
  lemma ScenarioSplitOptionOnly()
    ensures var doc := [Sec("intro", 3, None, []), Sec("setup", 7, None, [Sec("install", 10, None, [])])];
      DocumentSections(doc) == [Desc("intro", [], 1, Some(5)), Desc("setup", [], 5, None)]
  {
    var doc := [Sec("intro", 3, None, []), Sec("setup", 7, None, [Sec("install", 10, None, [])])];
    OptInByDefault(doc, [], 0);
    var ex := Extract(doc, [], 0);
    assert ex == [Desc("intro", [], 1, None), Desc("setup", [], 5, None)];
    var r := WithEndLines(ex);
    assert r[0] == Desc("intro", [], 1, Some(5));
    assert r[1] == Desc("setup", [], 5, None);
  }

  /** The part "install" under "setup" is written to `setup/install.adoc`. */
  lemma ScenarioNestedPath()
    ensures PathOf(["setup"], "install") == "setup/" + "install" + ".adoc"
  {
    assert Join(["setup"], '/') == "setup";
    assert "setup" + "/" == "setup/";
  }

  /**
   * A reference `<<install-step, see install>>` in the part "intro" to an anchor only
   * "setup" defines becomes `xref:setup.adoc#install-step[see install]`.
   */
  lemma ScenarioCrossReference()
    ensures
      var intro := Part("intro", [], "intro.adoc", "See <<install-step, see install>>.", {});
      var setup := Part("setup", [], "setup.adoc", "[[install-step]]", {"install-step"});
      Rewrite([intro, setup], intro, intro.content) == Ok("See " + "xref:setup.adoc#install-step[see install]" + ".")
  {
    var intro := Part("intro", [], "intro.adoc", "See <<install-step, see install>>.", {});
    var setup := Part("setup", [], "setup.adoc", "[[install-step]]", {"install-step"});
    var m := Match("install-step", Some(Label(1, "see install", 0)));
    ScenarioMarkup(m);
    ScenarioWellFormed(m);
    ScenarioResolve([intro, setup], m);
    RewriteLoneReference([intro, setup], intro, "See ", m, ".");
  }

  /*
   * The facts below are about string literals; each is kept in a lemma of its own so
   * that the solver meets them one at a time.
   */

  lemma ScenarioMarkup(m: Match)
    requires m == Match("install-step", Some(Label(1, "see install", 0)))
    ensures "See <<install-step, see install>>." == "See " + Markup(m) + "."
  {
    ScenarioGroupText(m.group.value);
    ScenarioJoin(m.target, Closing(m));
  }

  lemma ScenarioJoin(target: string, closing: string)
    requires target == "install-step" && closing == ", see install" + ">>"
    ensures "See <<install-step, see install>>." == "See " + ("<<" + (target + closing)) + "."
  {
  }

  lemma ScenarioGroupText(l: Label)
    requires l == Label(1, "see install", 0)
    ensures GroupText(l) == ", see install"
  {
    assert Repeat(' ', 1) == " " && Repeat(' ', 0) == "";
  }

  lemma ScenarioWellFormed(m: Match)
    requires m == Match("install-step", Some(Label(1, "see install", 0)))
    ensures WellFormed(m)
  {
    ScenarioTarget(m.target);
    ScenarioLabel(m.group.value.text);
  }

  lemma ScenarioTarget(t: string)
    requires t == "install-step"
    ensures |t| >= 1 && AllDot(t) && ',' !in t && '>' !in t
  {
    assert forall i :: 0 <= i < |t| ==> 'a' <= t[i] <= 'z' || t[i] == '-';
  }

  lemma ScenarioLabel(t: string)
    requires t == "see install"
    ensures |t| >= 1 && AllDot(t) && '>' !in t && t[0] != ' ' && t[|t| - 1] != ' '
  {
    assert forall i :: 0 <= i < |t| ==> 'a' <= t[i] <= 'z' || t[i] == ' ';
  }

  lemma ScenarioResolve(parts: seq<Part>, m: Match)
    requires parts == [Part("intro", [], "intro.adoc", "See <<install-step, see install>>.", {}),
                       Part("setup", [], "setup.adoc", "[[install-step]]", {"install-step"})]
    requires m == Match("install-step", Some(Label(1, "see install", 0)))
    ensures Resolve(parts, parts[0], m) == Ok("xref:setup.adoc#install-step[see install]")
  {
    ScenarioOwner(parts, m.target);
    assert parts[1].name != parts[0].name;
    ScenarioXref(parts[1].path, m.target, LabelText(m));
  }

  lemma ScenarioOwner(parts: seq<Part>, target: string)
    requires |parts| == 2 && target !in parts[0].refs && target in parts[1].refs
    ensures Owner(parts, target) == Some(1)
  {
    assert parts[1..] == [parts[1]];
    assert Owner(parts[1..], target) == Some(0);
  }

  lemma ScenarioXref(path: string, target: string, text: string)
    requires path == "setup.adoc" && target == "install-step" && text == "see install"
    ensures "xref:" + path + "#" + target + "[" + text + "]" == "xref:setup.adoc#install-step[see install]"
  {
  }
}
