/**
 * Cross-reference rewriting (index.ts:23-33): `content.replace` with the global pattern
 * `<<(.+?)(, *(.+?) *)?>>` and a callback that resolves each match against the anchors
 * of all parts.
 */
module XRefs {
  import opened Wrappers
  import opened Text
  import opened Parts

  // ---------------------------------------------------------------------------
  // Matching `<<(.+?)(, *(.+?) *)?>>`

  /** The characters `.` matches in a JavaScript pattern: all but the four line terminators. */
  predicate IsDot(c: char)
  {
    c != '\n' && c != '\r' && c != '\U{2028}' && c != '\U{2029}'
  }

  predicate AllDot(s: string)
  {
    forall i :: 0 <= i < |s| ==> IsDot(s[i])
  }

  /** The label group `, *(.+?) *` when it takes part: spaces before, the label, spaces after. */
  datatype Label = Label(lead: nat, text: string, trail: nat)

  /** One match: the target (first capture) and the label group, if it took part. */
  datatype Match = Match(target: string, group: Option<Label>)

  /** The text a label group covers. */
  function GroupText(l: Label): string
  {
    "," + Repeat(' ', l.lead) + l.text + Repeat(' ', l.trail)
  }

  /** The text a match covers after its target: the label group, if any, and `>>`. */
  function Closing(m: Match): string
  {
    (if m.group.Some? then GroupText(m.group.value) else "") + ">>"
  }

  /** The text a match covers after `<<`. */
  function Tail(m: Match): string
  {
    m.target + Closing(m)
  }

  /** The whole matched text, `wholeMatch` in the callback. */
  function Markup(m: Match): string
  {
    "<<" + Tail(m)
  }

  /** The label text the callback sees: `label ?? ""`. */
  function LabelText(m: Match): string
  {
    if m.group.Some? then m.group.value.text else ""
  }

  /** `l` is the label group found at `q`, and `>>` follows it. */
  predicate GroupAt(s: string, q: nat, l: Label)
  {
    q + |GroupText(l)| + 2 <= |s| && s[q..q + |GroupText(l)| + 2] == GroupText(l) + ">>"
    && |l.text| >= 1 && AllDot(l.text)
  }

  /** The captures of `m` are non-empty single-line text, and `s` holds `prefix + Tail(m)` at `i`. */
  predicate MatchedAt(s: string, i: nat, prefix: string, m: Match)
  {
    var t := prefix + Tail(m);
    i + |t| <= |s| && s[i..i + |t|] == t
    && |m.target| >= 1 && AllDot(m.target)
    && (m.group.Some? ==> |m.group.value.text| >= 1 && AllDot(m.group.value.text))
  }

  lemma SliceSplit(s: string, i: nat, j: nat, k: nat)
    requires i <= j <= k <= |s|
    ensures s[i..k] == s[i..j] + s[j..k]
  {
  }

  /** The pieces the matcher found at `q` make up a label group followed by `>>`. */
  lemma GroupTextAt(s: string, q: nat, a: nat, e: nat, b: nat)
    requires q + 1 + a < e && e + b + 2 <= |s| && s[q] == ','
    requires s[q + 1..q + 1 + a] == Repeat(' ', a) && AllDot(s[q + 1 + a..e])
    requires s[e..e + b] == Repeat(' ', b) && ClosesAt(s, e + b)
    ensures GroupAt(s, q, Label(a, s[q + 1 + a..e], b))
  {
  }

  /** A target followed by a label group and `>>`, or directly by `>>`, makes up a match's tail. */
  lemma TailAt(s: string, ts: nat, te: nat, g: Option<Label>)
    requires ts < te <= |s| && AllDot(s[ts..te])
    requires g.Some? ==> GroupAt(s, te, g.value)
    requires g.None? ==> ClosesAt(s, te)
    ensures MatchedAt(s, ts, "", Match(s[ts..te], g))
  {
  }

  /** The length of the run of spaces starting at `i`. */
  function SpaceRun(s: string, i: nat): (n: nat)
    requires i <= |s|
    ensures i + n <= |s|
    ensures i + n < |s| ==> s[i + n] != ' '
    decreases |s| - i
  {
    if i < |s| && s[i] == ' ' then 1 + SpaceRun(s, i + 1) else 0
  }

  /** The run `SpaceRun` measures is made of spaces only. */
  lemma {:induction false} SpaceRunSpaces(s: string, i: nat)
    requires i <= |s|
    ensures s[i..i + SpaceRun(s, i)] == Repeat(' ', SpaceRun(s, i))
    decreases |s| - i
  {
    if i < |s| && s[i] == ' ' {
      var n := SpaceRun(s, i + 1);
      SpaceRunSpaces(s, i + 1);
      assert s[i..i + 1 + n] == [' '] + s[i + 1..i + 1 + n];
      assert Repeat(' ', 1 + n) == [' '] + Repeat(' ', n);
    }
  }

  lemma SpaceRunChars(s: string, i: nat)
    requires i <= |s|
    ensures forall k :: i <= k < i + SpaceRun(s, i) ==> s[k] == ' '
  {
    var n := SpaceRun(s, i);
    SpaceRunSpaces(s, i);
    forall k | i <= k < i + n
      ensures s[k] == ' '
    {
      assert s[k] == s[i..i + n][k - i];
    }
  }

  predicate ClosesAt(s: string, i: nat)
  {
    i + 2 <= |s| && s[i] == '>' && s[i + 1] == '>'
  }

  /**
   * The lazy label `(.+?)` currently ending at `le`, followed by ` *>>`: the first end,
   * in increasing order, that lets the rest match.
   */
  function LabelEnd(s: string, le: nat): (e: Option<nat>)
    requires le <= |s|
    ensures e.Some? ==> le <= e.value <= |s|
    ensures e.Some? ==> ClosesAt(s, e.value + SpaceRun(s, e.value))
    decreases |s| - le
  {
    if ClosesAt(s, le + SpaceRun(s, le)) then Some(le)
    else if le < |s| && IsDot(s[le]) then LabelEnd(s, le + 1)
    else None
  }

  /** The lazy label only grows over characters `.` matches. */
  lemma {:induction false} LabelEndDots(s: string, ls: nat, le: nat)
    requires ls < le <= |s| && AllDot(s[ls..le])
    requires LabelEnd(s, le).Some?
    ensures AllDot(s[ls..LabelEnd(s, le).value])
    decreases |s| - le
  {
    if !ClosesAt(s, le + SpaceRun(s, le)) {
      assert s[ls..le + 1] == s[ls..le] + [s[le]];
      LabelEndDots(s, ls, le + 1);
    }
  }

  /** The group after the comma at `q` when ` *` takes exactly `a` spaces. */
  function GroupWith(s: string, q: nat, a: nat): Option<Label>
    requires q + 1 + a <= |s|
  {
    var ls := q + 1 + a;
    if ls < |s| && IsDot(s[ls]) then
      match LabelEnd(s, ls + 1)
      case Some(e) => Some(Label(a, s[ls..e], SpaceRun(s, e)))
      case None => None
    else None
  }

  /** The group after the comma at `q`, with the greedy ` *` taking `a` spaces, then fewer. */
  function GroupFrom(s: string, q: nat, a: nat): Option<Label>
    requires q + 1 + a <= |s|
    decreases a
  {
    var g := GroupWith(s, q, a);
    if g.Some? then g
    else if a == 0 then None
    else GroupFrom(s, q, a - 1)
  }

  /** The optional group `(, *(.+?) *)?` right after the target, tried first since `?` is greedy. */
  function Group(s: string, q: nat): Option<Label>
  {
    if q < |s| && s[q] == ',' then GroupFrom(s, q, SpaceRun(s, q + 1)) else None
  }

  /**
   * The lazy target `(.+?)` from `ts`, currently ending at `te`: the label group is tried
   * first, then the bare `>>`, and only then is the target extended by one character.
   */
  function TargetFrom(s: string, ts: nat, te: nat): Option<Match>
    requires ts < te <= |s|
    decreases |s| - te
  {
    var g := Group(s, te);
    if g.Some? then Some(Match(s[ts..te], g))
    else if ClosesAt(s, te) then Some(Match(s[ts..te], None))
    else if te < |s| && IsDot(s[te]) then TargetFrom(s, ts, te + 1)
    else None
  }

  /** The match of the pattern that starts at position `p`, if any. */
  function MatchAt(s: string, p: nat): Option<Match>
  {
    if p + 3 <= |s| && s[p] == '<' && s[p + 1] == '<' && IsDot(s[p + 2]) then
      TargetFrom(s, p + 2, p + 3)
    else None
  }

  /** A group found with `a` spaces is a comma, those spaces, a label, spaces, then `>>`. */
  lemma GroupWithSound(s: string, q: nat, a: nat)
    requires q + 1 + a <= |s| && s[q] == ','
    requires s[q + 1..q + 1 + a] == Repeat(' ', a)
    requires GroupWith(s, q, a).Some?
    ensures GroupAt(s, q, GroupWith(s, q, a).value)
  {
    var ls := q + 1 + a;
    var e := LabelEnd(s, ls + 1).value;
    assert AllDot(s[ls..ls + 1]) by {
      assert s[ls..ls + 1] == [s[ls]];
    }
    LabelEndDots(s, ls, ls + 1);
    SpaceRunSpaces(s, e);
    var l := Label(a, s[ls..e], SpaceRun(s, e));
    assert GroupWith(s, q, a) == Some(l);
    GroupTextAt(s, q, a, e, SpaceRun(s, e));
  }

  lemma {:induction false} GroupFromSound(s: string, q: nat, a: nat)
    requires q + 1 + a <= |s| && s[q] == ','
    requires s[q + 1..q + 1 + a] == Repeat(' ', a)
    requires GroupFrom(s, q, a).Some?
    ensures GroupAt(s, q, GroupFrom(s, q, a).value)
    decreases a
  {
    if GroupWith(s, q, a).Some? {
      GroupWithSound(s, q, a);
    } else {
      assert s[q + 1..q + a] == s[q + 1..q + 1 + a][..a - 1];
      GroupFromSound(s, q, a - 1);
    }
  }

  /** Whatever group is found at `q` is there in `s`, followed by `>>`. */
  lemma GroupSound(s: string, q: nat)
    requires Group(s, q).Some?
    ensures GroupAt(s, q, Group(s, q).value)
  {
    SpaceRunSpaces(s, q + 1);
    GroupFromSound(s, q, SpaceRun(s, q + 1));
  }

  /** Whatever the lazy target finds is a single-line target followed by the rest of a match. */
  lemma {:induction false} TargetFromSound(s: string, ts: nat, te: nat)
    requires ts < te <= |s| && AllDot(s[ts..te])
    requires TargetFrom(s, ts, te).Some?
    ensures MatchedAt(s, ts, "", TargetFrom(s, ts, te).value)
    decreases |s| - te
  {
    var g := Group(s, te);
    if g.Some? {
      GroupSound(s, te);
      TailAt(s, ts, te, g);
    } else if ClosesAt(s, te) {
      TailAt(s, ts, te, None);
    } else {
      assert s[ts..te + 1] == s[ts..te] + [s[te]];
      TargetFromSound(s, ts, te + 1);
    }
  }

  /** Whatever the pattern matches at `p` is `<<`, then the tail of that match, there in `s`. */
  lemma MatchAtSound(s: string, p: nat)
    requires MatchAt(s, p).Some?
    ensures MatchedAt(s, p, "<<", MatchAt(s, p).value)
  {
    var m := MatchAt(s, p).value;
    assert AllDot(s[p + 2..p + 3]) by {
      assert s[p + 2..p + 3] == [s[p + 2]];
    }
    TargetFromSound(s, p + 2, p + 3);
    SliceSplit(s, p, p + 2, p + |Markup(m)|);
  }

  /**
   * A match parses back from its own markup: for a target without `,`, `>` or line
   * breaks, and a label that neither starts nor ends with a space and has no `>`, the
   * pattern at the position of `Markup(m)` matches `m`, whatever surrounds it.
   */
  lemma MatchParsesMarkup(m: Match, before: string, rest: string)
    requires WellFormed(m)
    ensures MatchAt(before + Markup(m) + rest, |before|) == Some(m)
  {
    var s := before + Markup(m) + rest;
    var p := |before|;
    assert s[p..p + |Markup(m)|] == Markup(m);
    SplitAt(s, p, "<<", Tail(m));
    assert s[p] == '<' && s[p + 1] == '<' by {
      assert s[p..p + 2][0] == s[p] && s[p..p + 2][1] == s[p + 1];
    }
    assert Tail(m)[..1] == m.target[..1];
    SplitAt(s, p + 2, m.target, Closing(m));
    assert s[p + 2..p + 3] == m.target[..1] by {
      assert s[p + 2..p + 3] == s[p + 2..p + 2 + |m.target|][..1];
    }
    assert IsDot(s[p + 2]) by {
      assert s[p + 2] == m.target[0];
    }
    TargetScan(s, p + 2, p + 3, m);
  }

  /** The shape of a reference that reads back as itself. */
  predicate WellFormed(m: Match)
  {
    |m.target| >= 1 && AllDot(m.target) && ',' !in m.target && '>' !in m.target
    && (m.group.Some? ==>
      var l := m.group.value;
      |l.text| >= 1 && AllDot(l.text) && '>' !in l.text && l.text[0] != ' ' && l.text[|l.text| - 1] != ' ')
  }

  /** The lazy target grows past every proper prefix of a well-formed target. */
  lemma {:induction false} TargetScan(s: string, ts: nat, te: nat, m: Match)
    requires WellFormed(m) && ts + |Tail(m)| <= |s|
    requires s[ts..ts + |m.target|] == m.target
    requires s[ts + |m.target|..ts + |Tail(m)|] == Closing(m)
    requires ts < te <= ts + |m.target| && AllDot(s[ts..te])
    ensures TargetFrom(s, ts, te) == Some(m)
    decreases ts + |m.target| - te
  {
    var t := m.target;
    if te < ts + |t| {
      TargetGrows(s, ts, te, t);
      TargetScan(s, ts, te + 1, m);
    } else {
      TargetEnds(s, ts, m);
    }
  }

  /** Once the lazy target covers the whole target, the rest of the match is found. */
  lemma TargetEnds(s: string, ts: nat, m: Match)
    requires WellFormed(m) && ts + |Tail(m)| <= |s|
    requires s[ts..ts + |m.target|] == m.target
    requires s[ts + |m.target|..ts + |Tail(m)|] == Closing(m)
    ensures TargetFrom(s, ts, ts + |m.target|) == Some(m)
  {
    TargetComplete(s, ts + |m.target|, m);
  }

  /** Inside a target without `,` or `>`, neither a group nor `>>` can start: the target grows. */
  lemma TargetGrows(s: string, ts: nat, te: nat, t: string)
    requires ts < te < ts + |t| <= |s| && s[ts..ts + |t|] == t && AllDot(s[ts..te])
    requires AllDot(t) && ',' !in t && '>' !in t
    ensures AllDot(s[ts..te + 1]) && TargetFrom(s, ts, te) == TargetFrom(s, ts, te + 1)
  {
    assert s[te] == t[te - ts] by {
      assert s[te] == s[ts..ts + |t|][te - ts];
    }
    assert s[ts..te + 1] == s[ts..te] + [s[te]];
  }

  /** Right after the whole target, the group of `m` is found, or `>>` closes a match without one. */
  lemma TargetComplete(s: string, te: nat, m: Match)
    requires WellFormed(m)
    requires te + |Closing(m)| <= |s| && s[te..te + |Closing(m)|] == Closing(m)
    ensures m.group.Some? ==> Group(s, te) == m.group
    ensures m.group.None? ==> Group(s, te).None? && ClosesAt(s, te)
  {
    if m.group.None? {
      assert s[te] == s[te..te + 2][0] && s[te + 1] == s[te..te + 2][1];
    } else {
      GroupScan(s, te, m.group.value);
    }
  }

  /** The group of a well-formed label is found with the greedy spaces taking all its leading spaces. */
  lemma GroupScan(s: string, q: nat, l: Label)
    requires |l.text| >= 1 && AllDot(l.text) && '>' !in l.text && l.text[0] != ' ' && l.text[|l.text| - 1] != ' '
    requires q + |GroupText(l)| + 2 <= |s| && s[q..q + |GroupText(l)| + 2] == GroupText(l) + ">>"
    ensures Group(s, q) == Some(l)
  {
    GroupPieces(s, q, l);
    GroupFound(s, q, l);
  }

  /** A comma, `l.lead` spaces, the label, `l.trail` spaces and `>>` at `q` are found as the group `l`. */
  lemma GroupFound(s: string, q: nat, l: Label)
    requires |l.text| >= 1 && AllDot(l.text) && '>' !in l.text && l.text[0] != ' ' && l.text[|l.text| - 1] != ' '
    requires var ls := q + 1 + l.lead; var e := ls + |l.text|;
      e + l.trail <= |s| && s[q] == ',' && s[q + 1..ls] == Repeat(' ', l.lead) && s[ls..e] == l.text
    requires var e := q + 1 + l.lead + |l.text|;
      s[e..e + l.trail] == Repeat(' ', l.trail) && ClosesAt(s, e + l.trail)
    ensures Group(s, q) == Some(l)
  {
    var ls := q + 1 + l.lead;
    var e := ls + |l.text|;
    LabelFound(s, ls, l.text, l.trail);
    SpaceRunIs(s, q + 1, l.lead);
    GroupFromFound(s, q, l.lead, e);
    assert Label(l.lead, s[ls..e], SpaceRun(s, e)) == l;
  }

  /** The lazy label stops at the end of a label followed by spaces and `>>`, and no earlier. */
  lemma LabelFound(s: string, ls: nat, text: string, trail: nat)
    requires |text| >= 1 && AllDot(text) && '>' !in text && text[0] != ' ' && text[|text| - 1] != ' '
    requires ls + |text| + trail <= |s| && s[ls..ls + |text|] == text
    requires s[ls + |text|..ls + |text| + trail] == Repeat(' ', trail) && ClosesAt(s, ls + |text| + trail)
    ensures IsDot(s[ls]) && s[ls] != ' '
    ensures SpaceRun(s, ls + |text|) == trail
    ensures LabelEnd(s, ls + 1) == Some(ls + |text|)
  {
    var e := ls + |text|;
    LabelChars(s, ls, text);
    SpaceRunIs(s, e, trail);
    LabelScan(s, ls, ls + 1, e);
    assert LabelEnd(s, ls + 1) == Some(e);
  }

  /** When the label is found to end at `e`, the group is made of the spaces, that label and the spaces after it. */
  lemma GroupFromFound(s: string, q: nat, a: nat, e: nat)
    requires q + 1 + a < |s| && s[q] == ',' && IsDot(s[q + 1 + a])
    requires s[q + 1..q + 1 + a] == Repeat(' ', a)
    requires LabelEnd(s, q + 2 + a) == Some(e)
    ensures e <= |s|
    ensures GroupFrom(s, q, a) == Some(Label(a, s[q + 1 + a..e], SpaceRun(s, e)))
  {
    GroupWithFound(s, q, a, e);
    GreedyFirst(s, q, a);
  }

  lemma GroupWithFound(s: string, q: nat, a: nat, e: nat)
    requires q + 1 + a < |s| && s[q] == ',' && IsDot(s[q + 1 + a])
    requires s[q + 1..q + 1 + a] == Repeat(' ', a)
    requires LabelEnd(s, q + 2 + a) == Some(e)
    ensures e <= |s|
    ensures GroupWith(s, q, a) == Some(Label(a, s[q + 1 + a..e], SpaceRun(s, e)))
  {
  }

  /** The greedy ` *` keeps all `a` spaces whenever a group follows them. */
  lemma GreedyFirst(s: string, q: nat, a: nat)
    requires q + 1 + a <= |s| && s[q] == ','
    requires s[q + 1..q + 1 + a] == Repeat(' ', a)
    requires GroupWith(s, q, a).Some?
    ensures GroupFrom(s, q, a) == GroupWith(s, q, a)
  {
  }

  /** The characters of a label copied into `s` at `ls`. */
  lemma LabelChars(s: string, ls: nat, text: string)
    requires |text| >= 1 && ls + |text| <= |s| && s[ls..ls + |text|] == text
    requires AllDot(text) && '>' !in text && text[0] != ' ' && text[|text| - 1] != ' '
    ensures s[ls] != ' ' && s[ls + |text| - 1] != ' '
    ensures forall k :: ls <= k < ls + |text| ==> IsDot(s[k]) && s[k] != '>'
  {
    forall k | ls <= k < ls + |text|
      ensures s[k] == text[k - ls]
    {
      assert s[k] == s[ls..ls + |text|][k - ls];
    }
  }

  /** The parts of a label group followed by `>>`, located in `s` from the comma at `q`. */
  lemma GroupPieces(s: string, q: nat, l: Label)
    requires q + |GroupText(l)| + 2 <= |s| && s[q..q + |GroupText(l)| + 2] == GroupText(l) + ">>"
    ensures var ls := q + 1 + l.lead; var e := ls + |l.text|;
      s[q] == ',' && s[q + 1..ls] == Repeat(' ', l.lead) && s[ls..e] == l.text
      && s[e..e + l.trail] == Repeat(' ', l.trail) && ClosesAt(s, e + l.trail)
  {
    var lead, text, trail := Repeat(' ', l.lead), l.text, Repeat(' ', l.trail);
    var ls := q + 1 + l.lead;
    var e := ls + |text|;
    assert GroupText(l) + ">>" == "," + lead + text + trail + ">>";
    SplitAt(s, q, "," + lead + text + trail, ">>");
    SplitAt(s, q, "," + lead + text, trail);
    SplitAt(s, q, "," + lead, text);
    SplitAt(s, q, ",", lead);
    assert s[q] == s[q..q + 1][0];
    assert s[e + l.trail] == s[e + l.trail..e + l.trail + 2][0];
    assert s[e + l.trail + 1] == s[e + l.trail..e + l.trail + 2][1];
  }

  /** A slice holding `a + b` holds `a`, then `b`. */
  lemma SplitAt(s: string, i: nat, a: string, b: string)
    requires i + |a| + |b| <= |s| && s[i..i + |a| + |b|] == a + b
    ensures s[i..i + |a|] == a && s[i + |a|..i + |a| + |b|] == b
  {
    assert s[i..i + |a|] == s[i..i + |a| + |b|][..|a|];
    assert s[i + |a|..i + |a| + |b|] == s[i..i + |a| + |b|][|a|..];
  }

  /** A run of exactly `n` spaces at `i`. */
  lemma {:induction false} SpaceRunIs(s: string, i: nat, n: nat)
    requires i + n <= |s| && s[i..i + n] == Repeat(' ', n)
    requires i + n < |s| ==> s[i + n] != ' '
    ensures SpaceRun(s, i) == n
    decreases n
  {
    if n > 0 {
      assert s[i] == s[i..i + n][0];
      assert s[i + 1..i + n] == s[i..i + n][1..];
      SpaceRunIs(s, i + 1, n - 1);
    }
  }

  /** The lazy label passes every end before the first one followed by spaces and `>>`. */
  lemma {:induction false} LabelScan(s: string, ls: nat, le: nat, e: nat)
    requires ls < le <= e <= |s|
    requires forall k :: ls <= k < e ==> IsDot(s[k]) && s[k] != '>'
    requires s[e - 1] != ' '
    requires ClosesAt(s, e + SpaceRun(s, e))
    ensures LabelEnd(s, le) == Some(e)
    decreases e - le
  {
    if le < e {
      NotClosedInside(s, ls, le, e);
      LabelScan(s, ls, le + 1, e);
    }
  }

  /** Inside a label without `>` that does not end in a space, spaces are never followed by `>>`. */
  lemma NotClosedInside(s: string, ls: nat, le: nat, e: nat)
    requires ls <= le < e <= |s|
    requires forall k :: ls <= k < e ==> s[k] != '>'
    requires s[e - 1] != ' '
    ensures !ClosesAt(s, le + SpaceRun(s, le))
  {
    SpaceRunChars(s, le);
  }

  // ---------------------------------------------------------------------------
  // The global search

  /** A piece of content as the global `replace` sees it: a character outside any match, or a match. */
  datatype Piece = Plain(c: char) | Reference(m: Match)

  function PieceText(p: Piece): string
  {
    match p
    case Plain(c) => [c]
    case Reference(m) => Markup(m)
  }

  function Unscan(ps: seq<Piece>): string
  {
    if |ps| == 0 then "" else PieceText(ps[0]) + Unscan(ps[1..])
  }

  /**
   * The search of a global pattern from position `p`: the leftmost match, then the search
   * resumes right after it. Putting the pieces back together gives the text back.
   */
  function Scan(s: string, p: nat): seq<Piece>
    requires p <= |s|
    decreases |s| - p
  {
    if p == |s| then []
    else
      match MatchAt(s, p)
      case Some(m) =>
        MatchAtSound(s, p);
        [Reference(m)] + Scan(s, p + |Markup(m)|)
      case None => [Plain(s[p])] + Scan(s, p + 1)
  }

  /** Where the search resumes after position `p`: after the match there, or one character on. */
  function NextPos(s: string, p: nat): (q: nat)
    requires p < |s|
    ensures p < q <= |s|
  {
    match MatchAt(s, p)
    case Some(m) =>
      MatchAtSound(s, p);
      p + |Markup(m)|
    case None => p + 1
  }

  /** Putting the pieces of the search back together gives the text back. */
  lemma {:induction false} ScanUnscan(s: string, p: nat)
    requires p <= |s|
    ensures Unscan(Scan(s, p)) == s[p..]
    decreases |s| - p
  {
    if p < |s| {
      ScanUnscan(s, NextPos(s, p));
      UnscanStep(s, p);
    }
  }

  lemma UnscanStep(s: string, p: nat)
    requires p < |s|
    requires Unscan(Scan(s, NextPos(s, p))) == s[NextPos(s, p)..]
    ensures Unscan(Scan(s, p)) == s[p..]
  {
    var r := MatchAt(s, p);
    if r.Some? {
      MatchAtSound(s, p);
      UnscanMatch(s, p, r.value);
    } else {
      UnscanPlain(s, p);
    }
  }

  lemma UnscanMatch(s: string, p: nat, m: Match)
    requires MatchAt(s, p) == Some(m) && p + |Markup(m)| <= |s|
    requires s[p..p + |Markup(m)|] == Markup(m)
    requires Unscan(Scan(s, p + |Markup(m)|)) == s[p + |Markup(m)|..]
    ensures Unscan(Scan(s, p)) == s[p..]
  {
    var q := p + |Markup(m)|;
    ScanMatchStep(s, p, m);
    UnscanCons(Reference(m), Scan(s, q));
    SuffixSplit(s, p, q);
  }

  lemma ScanMatchStep(s: string, p: nat, m: Match)
    requires p < |s| && MatchAt(s, p) == Some(m)
    ensures p + |Markup(m)| <= |s|
    ensures Scan(s, p) == [Reference(m)] + Scan(s, p + |Markup(m)|)
  {
    MatchAtSound(s, p);
  }

  lemma UnscanPlain(s: string, p: nat)
    requires p < |s| && MatchAt(s, p).None?
    requires Unscan(Scan(s, p + 1)) == s[p + 1..]
    ensures Unscan(Scan(s, p)) == s[p..]
  {
    assert Scan(s, p) == [Plain(s[p])] + Scan(s, p + 1);
    UnscanCons(Plain(s[p]), Scan(s, p + 1));
    SuffixSplit(s, p, p + 1);
  }

  lemma UnscanCons(p: Piece, ps: seq<Piece>)
    ensures Unscan([p] + ps) == PieceText(p) + Unscan(ps)
  {
    assert ([p] + ps)[1..] == ps;
  }

  lemma SuffixSplit(s: string, i: nat, j: nat)
    requires i <= j <= |s|
    ensures s[i..] == s[i..j] + s[j..]
  {
  }

  /** Text outside any match, one piece per character. */
  function Plains(t: string): (r: seq<Piece>)
    ensures |r| == |t|
  {
    if |t| == 0 then [] else [Plain(t[0])] + Plains(t[1..])
  }

  /** A stretch without `<` holds no match: the search passes it character by character. */
  lemma {:induction false} ScanPlainText(s: string, p: nat, q: nat)
    requires p <= q <= |s|
    requires forall k :: p <= k < q ==> s[k] != '<'
    ensures Scan(s, p) == Plains(s[p..q]) + Scan(s, q)
    decreases q - p
  {
    if p < q {
      ScanPlainStep(s, p);
      ScanPlainText(s, p + 1, q);
      PlainsCons(s[p..q]);
      assert s[p..q][1..] == s[p + 1..q];
    }
  }

  lemma ScanPlainStep(s: string, p: nat)
    requires p < |s| && s[p] != '<'
    ensures Scan(s, p) == [Plain(s[p])] + Scan(s, p + 1)
  {
    assert MatchAt(s, p).None?;
  }

  lemma PlainsCons(t: string)
    requires |t| > 0
    ensures Plains(t) == [Plain(t[0])] + Plains(t[1..])
  {
  }

  /**
   * A well-formed reference amid text without `<` is found as exactly one match, and
   * everything around it stays plain text.
   */
  lemma ReferenceAmidText(before: string, m: Match, after: string)
    requires WellFormed(m) && '<' !in before && '<' !in after
    ensures Scan(before + Markup(m) + after, 0) == Plains(before) + [Reference(m)] + Plains(after)
  {
    var s := before + Markup(m) + after;
    var q := |before| + |Markup(m)|;
    ScanBefore(s, before, m, after);
    ScanAt(s, before, m, after);
    ScanAfter(s, before, m, after);
  }

  lemma ScanBefore(s: string, before: string, m: Match, after: string)
    requires s == before + Markup(m) + after && '<' !in before
    ensures Scan(s, 0) == Plains(before) + Scan(s, |before|)
  {
    assert s[0..|before|] == before;
    ScanPlainText(s, 0, |before|);
  }

  lemma ScanAt(s: string, before: string, m: Match, after: string)
    requires s == before + Markup(m) + after && WellFormed(m)
    ensures Scan(s, |before|) == [Reference(m)] + Scan(s, |before| + |Markup(m)|)
  {
    MatchParsesMarkup(m, before, after);
  }

  lemma ScanAfter(s: string, before: string, m: Match, after: string)
    requires s == before + Markup(m) + after && '<' !in after
    ensures Scan(s, |before| + |Markup(m)|) == Plains(after)
  {
    var q := |before| + |Markup(m)|;
    assert s[q..|s|] == after;
    ScanPlainText(s, q, |s|);
    assert Plains(after) + [] == Plains(after);
  }

  // ---------------------------------------------------------------------------
  // Resolution

  /** `parts.find((p) => p.refs.has(ref))`, as an index. */
  function Owner(parts: seq<Part>, ref: string): (r: Option<nat>)
    ensures r.None? ==> forall i :: 0 <= i < |parts| ==> ref !in parts[i].refs
    ensures r.Some? ==> r.value < |parts| && ref in parts[r.value].refs
    ensures r.Some? ==> forall i :: 0 <= i < r.value ==> ref !in parts[i].refs
  {
    if |parts| == 0 then None
    else if ref in parts[0].refs then Some(0)
    else
      match Owner(parts[1..], ref)
      case None => None
      case Some(i) => Some(i + 1)
  }

  /** The callback of index.ts:23-33 for one match inside `current`. */
  function Resolve(parts: seq<Part>, current: Part, m: Match): Result<string>
  {
    match Owner(parts, m.target)
    case None => Err("Couldn't find reference " + m.target)
    case Some(i) =>
      if parts[i].name == current.name then Ok(Markup(m))
      else Ok("xref:" + parts[i].path + "#" + m.target + "[" + LabelText(m) + "]")
  }

  /** The replacement of each piece in order; the first failing callback aborts the whole call. */
  function RewritePieces(parts: seq<Part>, current: Part, ps: seq<Piece>): Result<string>
  {
    if |ps| == 0 then Ok("")
    else
      var head := match ps[0]
        case Plain(c) => Ok([c])
        case Reference(m) => Resolve(parts, current, m);
      if head.Err? then head
      else
        var rest := RewritePieces(parts, current, ps[1..]);
        if rest.Err? then rest else Ok(head.value + rest.value)
  }

  /** `content.replace(/<<(.+?)(, *(.+?) *)?>>/g, callback)` for the part `current`. */
  function Rewrite(parts: seq<Part>, current: Part, content: string): Result<string>
  {
    RewritePieces(parts, current, Scan(content, 0))
  }

  /** No part defines the target: the callback throws, naming the target. */
  lemma UnknownTargetFails(parts: seq<Part>, current: Part, m: Match)
    ensures (forall i :: 0 <= i < |parts| ==> m.target !in parts[i].refs)
        <==> Resolve(parts, current, m).Err?
    ensures Resolve(parts, current, m).Err? ==>
      Resolve(parts, current, m).message == "Couldn't find reference " + m.target
  {
  }

  /**
   * With `i` the first part defining the target: a part with the current part's name
   * keeps the match as it is; any other becomes an `xref:` to that part's path, with the
   * label or an empty one.
   */
  lemma FirstDefinerWins(parts: seq<Part>, current: Part, m: Match, i: nat)
    requires i < |parts| && m.target in parts[i].refs
    requires forall j :: 0 <= j < i ==> m.target !in parts[j].refs
    ensures parts[i].name == current.name ==> Resolve(parts, current, m) == Ok(Markup(m))
    ensures parts[i].name != current.name ==>
      Resolve(parts, current, m) == Ok("xref:" + parts[i].path + "#" + m.target + "[" + LabelText(m) + "]")
  {
  }

  /**
   * When part names are distinct, "same name" is "same part": a match is kept exactly
   * when the part that defines its target is the part being rewritten.
   */
  lemma DistinctNamesKeepOnlyLocal(parts: seq<Part>, c: nat, m: Match)
    requires c < |parts|
    requires forall i, j :: 0 <= i < j < |parts| ==> parts[i].name != parts[j].name
    requires Owner(parts, m.target).Some?
    ensures Resolve(parts, parts[c], m) == Ok(Markup(m)) <==> Owner(parts, m.target) == Some(c)
  {
    var o := Owner(parts, m.target).value;
    if o != c {
      var r := "xref:" + parts[o].path + "#" + m.target + "[" + LabelText(m) + "]";
      assert r[0] == 'x' && Markup(m)[0] == '<';
    }
  }

  /** Every reference in the pieces resolves to a part with the current part's name. */
  predicate AllLocal(parts: seq<Part>, current: Part, ps: seq<Piece>)
  {
    forall k :: 0 <= k < |ps| && ps[k].Reference? ==>
      var o := Owner(parts, ps[k].m.target);
      o.Some? && parts[o.value].name == current.name
  }

  /** Content whose references all stay within the part comes back unchanged. */
  lemma {:induction false} LocalReferencesKept(parts: seq<Part>, current: Part, ps: seq<Piece>)
    requires AllLocal(parts, current, ps)
    ensures RewritePieces(parts, current, ps) == Ok(Unscan(ps))
  {
    if |ps| > 0 {
      assert AllLocal(parts, current, ps[1..]) by {
        forall k | 0 <= k < |ps[1..]| && ps[1..][k].Reference?
          ensures var o := Owner(parts, ps[1..][k].m.target); o.Some? && parts[o.value].name == current.name
        {
          assert ps[1..][k] == ps[k + 1];
        }
      }
      LocalReferencesKept(parts, current, ps[1..]);
    }
  }

  /** A plain character is copied ahead of whatever the rest rewrites to. */
  lemma PlainStep(parts: seq<Part>, current: Part, c: char, ps: seq<Piece>)
    ensures RewritePieces(parts, current, [Plain(c)] + ps)
      == if RewritePieces(parts, current, ps).Ok? then Ok([c] + RewritePieces(parts, current, ps).value)
         else RewritePieces(parts, current, ps)
  {
    assert ([Plain(c)] + ps)[1..] == ps;
  }

  /** A resolved reference is replaced ahead of whatever the rest rewrites to. */
  lemma ReferenceStep(parts: seq<Part>, current: Part, m: Match, ps: seq<Piece>)
    ensures Resolve(parts, current, m).Ok? && RewritePieces(parts, current, ps).Ok? ==>
      RewritePieces(parts, current, [Reference(m)] + ps)
        == Ok(Resolve(parts, current, m).value + RewritePieces(parts, current, ps).value)
    ensures Resolve(parts, current, m).Err? ==>
      RewritePieces(parts, current, [Reference(m)] + ps) == Resolve(parts, current, m)
  {
    assert ([Reference(m)] + ps)[1..] == ps;
  }

  /** Plain text is copied as it is ahead of whatever follows it. */
  lemma {:induction false} PlainsRewrite(parts: seq<Part>, current: Part, t: string, ps: seq<Piece>)
    ensures RewritePieces(parts, current, ps).Ok? ==>
      RewritePieces(parts, current, Plains(t) + ps) == Ok(t + RewritePieces(parts, current, ps).value)
    ensures RewritePieces(parts, current, ps).Err? ==>
      RewritePieces(parts, current, Plains(t) + ps) == RewritePieces(parts, current, ps)
  {
    if |t| == 0 {
      assert Plains(t) + ps == ps;
      var r := RewritePieces(parts, current, ps);
      if r.Ok? {
        assert t + r.value == r.value;
      }
    } else {
      PlainsRewrite(parts, current, t[1..], ps);
      var r := RewritePieces(parts, current, ps);
      if r.Ok? {
        PlainsRewriteConsOk(parts, current, t, ps, r.value);
      } else {
        PlainsRewriteConsErr(parts, current, t, ps);
      }
    }
  }

  /** The step of `PlainsRewrite` when the rest rewrites: a first character copied ahead of the rest of the text. */
  lemma PlainsRewriteConsOk(parts: seq<Part>, current: Part, t: string, ps: seq<Piece>, u: string)
    requires |t| > 0 && RewritePieces(parts, current, ps) == Ok(u)
    requires RewritePieces(parts, current, Plains(t[1..]) + ps) == Ok(t[1..] + u)
    ensures RewritePieces(parts, current, Plains(t) + ps) == Ok(t + u)
  {
    var rest := Plains(t[1..]) + ps;
    PlainsCons(t);
    assert Plains(t) + ps == [Plain(t[0])] + rest;
    PlainStep(parts, current, t[0], rest);
    PrependChar(t, u);
  }

  /** The step of `PlainsRewrite` when the rest fails: the failure is passed on. */
  lemma PlainsRewriteConsErr(parts: seq<Part>, current: Part, t: string, ps: seq<Piece>)
    requires |t| > 0 && RewritePieces(parts, current, ps).Err?
    requires RewritePieces(parts, current, Plains(t[1..]) + ps) == RewritePieces(parts, current, ps)
    ensures RewritePieces(parts, current, Plains(t) + ps) == RewritePieces(parts, current, ps)
  {
    PlainsAppend(t, ps);
    PlainPassesErr(parts, current, t[0], Plains(t[1..]) + ps);
  }

  lemma PlainsAppend(t: string, ps: seq<Piece>)
    requires |t| > 0
    ensures Plains(t) + ps == [Plain(t[0])] + (Plains(t[1..]) + ps)
  {
    PlainsCons(t);
    ConsAppend(Plain(t[0]), Plains(t[1..]), ps);
  }

  lemma ConsAppend<T>(x: T, a: seq<T>, b: seq<T>)
    ensures ([x] + a) + b == [x] + (a + b)
  {
  }

  lemma PlainPassesErr(parts: seq<Part>, current: Part, c: char, ps: seq<Piece>)
    requires RewritePieces(parts, current, ps).Err?
    ensures RewritePieces(parts, current, [Plain(c)] + ps) == RewritePieces(parts, current, ps)
  {
    assert ([Plain(c)] + ps)[1..] == ps;
  }

  lemma PrependChar(t: string, u: string)
    requires |t| > 0
    ensures [t[0]] + (t[1..] + u) == t + u
  {
    assert t == [t[0]] + t[1..];
  }

  /**
   * A content holding one well-formed reference amid text without `<` is rewritten to
   * that text with the reference replaced by its resolution, or fails as its resolution does.
   */
  lemma RewriteLoneReference(parts: seq<Part>, current: Part, before: string, m: Match, after: string)
    requires WellFormed(m) && '<' !in before && '<' !in after
    ensures Resolve(parts, current, m).Ok? ==>
      Rewrite(parts, current, before + Markup(m) + after) == Ok(before + Resolve(parts, current, m).value + after)
    ensures Resolve(parts, current, m).Err? ==>
      Rewrite(parts, current, before + Markup(m) + after) == Resolve(parts, current, m)
  {
    var content := before + Markup(m) + after;
    var tail := [Reference(m)] + Plains(after);
    ReferenceAmidText(before, m, after);
    assert Plains(before) + [Reference(m)] + Plains(after) == Plains(before) + tail;
    RewriteScanned(parts, current, content, Plains(before) + tail);
    ReferenceThenText(parts, current, m, after);
    PlainsRewrite(parts, current, before, tail);
    var r := Resolve(parts, current, m);
    if r.Ok? {
      assert before + (r.value + after) == before + r.value + after;
    }
  }

  lemma RewriteScanned(parts: seq<Part>, current: Part, content: string, ps: seq<Piece>)
    requires Scan(content, 0) == ps
    ensures Rewrite(parts, current, content) == RewritePieces(parts, current, ps)
  {
  }

  lemma ReferenceThenText(parts: seq<Part>, current: Part, m: Match, after: string)
    ensures Resolve(parts, current, m).Ok? ==>
      RewritePieces(parts, current, [Reference(m)] + Plains(after)) == Ok(Resolve(parts, current, m).value + after)
    ensures Resolve(parts, current, m).Err? ==>
      RewritePieces(parts, current, [Reference(m)] + Plains(after)) == Resolve(parts, current, m)
  {
    PlainsRewrite(parts, current, after, []);
    assert Plains(after) + [] == Plains(after);
    assert after + "" == after;
    ReferenceStep(parts, current, m, Plains(after));
  }

  /** The target names no part defines. */
  predicate Unresolvable(parts: seq<Part>, ps: seq<Piece>, k: int)
  {
    0 <= k < |ps| && ps[k].Reference? && Owner(parts, ps[k].m.target).None?
  }

  /**
   * Rewriting fails exactly when some reference names an anchor no part defines, and the
   * error names the first such target.
   */
  lemma {:induction false} FailsOnFirstUnknown(parts: seq<Part>, current: Part, ps: seq<Piece>)
    ensures RewritePieces(parts, current, ps).Err? <==> exists k :: Unresolvable(parts, ps, k)
    ensures forall k :: Unresolvable(parts, ps, k) && (forall j :: 0 <= j < k ==> !Unresolvable(parts, ps, j)) ==>
      RewritePieces(parts, current, ps) == Err("Couldn't find reference " + ps[k].m.target)
  {
    if |ps| > 0 {
      var tail := ps[1..];
      FailsOnFirstUnknown(parts, current, tail);
      forall k | 1 <= k <= |tail|
        ensures Unresolvable(parts, ps, k) == Unresolvable(parts, tail, k - 1)
      {
        assert ps[k] == tail[k - 1];
      }
      if !Unresolvable(parts, ps, 0) {
        if exists k :: Unresolvable(parts, ps, k) {
          var k :| Unresolvable(parts, ps, k);
          assert Unresolvable(parts, tail, k - 1);
        }
        if exists k :: Unresolvable(parts, tail, k) {
          var k :| Unresolvable(parts, tail, k);
          assert Unresolvable(parts, ps, k + 1);
        }
        forall k | Unresolvable(parts, ps, k) && (forall j :: 0 <= j < k ==> !Unresolvable(parts, ps, j))
          ensures RewritePieces(parts, current, ps) == Err("Couldn't find reference " + ps[k].m.target)
        {
          assert Unresolvable(parts, tail, k - 1);
          forall j | 0 <= j < k - 1
            ensures !Unresolvable(parts, tail, j)
          {
            assert !Unresolvable(parts, ps, j + 1);
          }
        }
      }
    }
  }
}
