/**
 * The JavaScript string and array primitives the splitter relies on:
 * `Array.prototype.join`, `Array.prototype.slice` and `String.prototype.repeat`,
 * plus a splitting function used only to state what joining preserves.
 */
module Text {
  import opened Wrappers

  /** `xs.join(sep)` for a one-character separator; the empty array joins to "". */
  function Join(xs: seq<string>, sep: char): (r: string)
    ensures |xs| == 1 ==> r == xs[0]
  {
    if |xs| == 0 then ""
    else if |xs| == 1 then xs[0]
    else xs[0] + [sep] + Join(xs[1..], sep)
  }

  /** `c.repeat(n)`. */
  function Repeat(c: char, n: nat): (r: string)
    ensures |r| == n && forall i :: 0 <= i < n ==> r[i] == c
  {
    seq(n, _ => c)
  }

  /** The index of the first `c` in `s`, if any. */
  function IndexOf(s: string, c: char): (r: Option<nat>)
    ensures r.None? ==> c !in s
    ensures r.Some? ==> r.value < |s| && s[r.value] == c && c !in s[..r.value]
  {
    if |s| == 0 then None
    else if s[0] == c then Some(0)
    else
      match IndexOf(s[1..], c)
      case None => None
      case Some(i) =>
        assert s[..i + 1] == [s[0]] + s[1..][..i];
        Some(i + 1)
  }

  /** `s.split(c)`: the pieces between occurrences of `c`; always at least one piece. */
  function SplitOn(s: string, c: char): (r: seq<string>)
    ensures |r| >= 1
    decreases |s|
  {
    match IndexOf(s, c)
    case None => [s]
    case Some(i) => [s[..i]] + SplitOn(s[i + 1..], c)
  }

  /** Joining and then splitting on a separator that occurs in no element gives the elements back. */
  lemma {:induction false} SplitJoin(xs: seq<string>, c: char)
    requires |xs| >= 1
    requires forall i :: 0 <= i < |xs| ==> c !in xs[i]
    ensures SplitOn(Join(xs, c), c) == xs
    decreases |xs|
  {
    if |xs| > 1 {
      SplitAfterFirst(xs[0], c, Join(xs[1..], c));
      SplitJoin(xs[1..], c);
      assert xs == [xs[0]] + xs[1..];
    }
  }

  /** Splitting `a + [c] + b`, where `a` holds no `c`, gives `a` and then the pieces of `b`. */
  lemma SplitAfterFirst(a: string, c: char, b: string)
    requires c !in a
    ensures SplitOn(a + [c] + b, c) == [a] + SplitOn(b, c)
  {
    var s := a + [c] + b;
    IndexOfAfter(a, c, b);
    assert s[..|a|] == a;
    assert s[|a| + 1..] == b;
  }

  /** The first `c` in `a + [c] + b` is the one after `a` when `a` holds none. */
  lemma {:induction false} IndexOfAfter(a: string, c: char, b: string)
    requires c !in a
    ensures IndexOf(a + [c] + b, c) == Some(|a|)
    decreases |a|
  {
    if |a| > 0 {
      assert (a + [c] + b)[1..] == a[1..] + [c] + b;
      IndexOfAfter(a[1..], c, b);
    }
  }

  /** Joining two non-empty lists equals joining each and putting the separator between. */
  lemma {:induction false} JoinAppend(a: seq<string>, b: seq<string>, sep: char)
    requires |a| >= 1 && |b| >= 1
    ensures Join(a + b, sep) == Join(a, sep) + [sep] + Join(b, sep)
    decreases |a|
  {
    if |a| == 1 {
      assert (a + b)[1..] == b;
    } else {
      assert (a + b)[1..] == a[1..] + b;
      JoinAppend(a[1..], b, sep);
    }
  }

  /** The concatenation of a list of lists, in order. */
  function Flatten<T>(xss: seq<seq<T>>): seq<T>
  {
    if |xss| == 0 then [] else Flatten(xss[..|xss| - 1]) + xss[|xss| - 1]
  }

  /**
   * Joining the lines of several non-empty blocks equals joining the joined blocks:
   * the separator between two blocks is the one `Join` puts there.
   */
  lemma {:induction false} JoinFlatten(xss: seq<seq<string>>, sep: char)
    requires |xss| >= 1
    requires forall i :: 0 <= i < |xss| ==> |xss[i]| >= 1
    ensures Join(Flatten(xss), sep) == Join(seq(|xss|, i requires 0 <= i < |xss| => Join(xss[i], sep)), sep)
    decreases |xss|
  {
    var joined := seq(|xss|, i requires 0 <= i < |xss| => Join(xss[i], sep));
    if |xss| == 1 {
      assert Flatten(xss) == Flatten(xss[..0]) + xss[0];
      assert Flatten(xss) == xss[0];
    } else {
      var init := xss[..|xss| - 1];
      var joinedInit := seq(|init|, i requires 0 <= i < |init| => Join(init[i], sep));
      JoinFlatten(init, sep);
      FlattenNonEmpty(init);
      JoinAppend(Flatten(init), xss[|xss| - 1], sep);
      assert joined == joinedInit + [Join(xss[|xss| - 1], sep)];
      JoinAppend(joinedInit, [Join(xss[|xss| - 1], sep)], sep);
    }
  }

  lemma {:induction false} FlattenNonEmpty<T>(xss: seq<seq<T>>)
    requires |xss| >= 1
    requires forall i :: 0 <= i < |xss| ==> |xss[i]| >= 1
    ensures |Flatten(xss)| >= 1
  {
  }

  /**
   * The index `Array.prototype.slice` uses for an argument `i` on an array of length
   * `len`: a negative index counts from the end, and the result is clamped to [0, len].
   */
  function RelativeIndex(i: int, len: nat): (r: nat)
    ensures r <= len
    ensures 0 <= i <= len ==> r == i
    ensures i < 0 ==> r == if len + i < 0 then 0 else len + i
  {
    if i < 0 then (if len + i < 0 then 0 else len + i)
    else if i > len then len
    else i
  }

  /** `xs.slice(start, end)`, where `None` stands for an `undefined` end (slice to the end). */
  function Slice<T>(xs: seq<T>, start: int, end: Option<int>): (r: seq<T>)
    ensures 0 <= start <= |xs| && end.None? ==> r == xs[start..]
    ensures 0 <= start && end.Some? && start <= end.value <= |xs| ==> r == xs[start..end.value]
    ensures |r| <= |xs|
  {
    var from := RelativeIndex(start, |xs|);
    var to := if end.None? then |xs| else RelativeIndex(end.value, |xs|);
    if from < to then xs[from..to] else []
  }

  /** The number of `c` characters `s` starts with. */
  function LeadingRun(s: string, c: char): (k: nat)
    ensures k <= |s|
    ensures forall i :: 0 <= i < k ==> s[i] == c
    ensures k < |s| ==> s[k] != c
  {
    if |s| > 0 && s[0] == c then 1 + LeadingRun(s[1..], c) else 0
  }

  /** A run of exactly `k` characters `c`, ended by another character or by the end. */
  lemma {:induction false} LeadingRunIs(s: string, c: char, k: nat)
    requires k <= |s|
    requires forall i :: 0 <= i < k ==> s[i] == c
    requires k < |s| ==> s[k] != c
    ensures LeadingRun(s, c) == k
  {
    if k > 0 {
      LeadingRunIs(s[1..], c, k - 1);
    }
  }
}
