/** String operations the multi-hop pipeline relies on: `sep.join(parts)` and
    `str.splitlines()`. Line breaks are '\n' only. */
module Text {

  /** `sep.join(parts)` */
  function Join(sep: string, parts: seq<string>): string
  {
    if |parts| == 0 then ""
    else if |parts| == 1 then parts[0]
    else Join(sep, parts[..|parts| - 1]) + sep + parts[|parts| - 1]
  }

  /** Where `parts[i]` starts in `Join(sep, parts)`: after every earlier part
      and one separator behind each of them. */
  function Offset(sep: string, parts: seq<string>, i: nat): nat
    requires i <= |parts|
  {
    if i == 0 then 0 else Offset(sep, parts, i - 1) + |parts[i - 1]| + |sep|
  }

  lemma {:induction false} OffsetOfPrefix(sep: string, parts: seq<string>, n: nat, i: nat)
    requires i <= n <= |parts|
    ensures Offset(sep, parts[..n], i) == Offset(sep, parts, i)
  {
    if i > 0 {
      OffsetOfPrefix(sep, parts, n, i - 1);
    }
  }

  /** `part` occurs in `s` starting at index `at`. */
  predicate At(s: string, part: string, at: nat)
  {
    at + |part| <= |s| && s[at..at + |part|] == part
  }

  lemma AtPrefix(s: string, t: string, part: string, at: nat)
    requires At(s, part, at)
    ensures At(s + t, part, at)
  {
    assert (s + t)[at..at + |part|] == s[at..at + |part|];
  }

  lemma JoinSnoc(sep: string, parts: seq<string>)
    requires |parts| > 1
    ensures Join(sep, parts) == Join(sep, parts[..|parts| - 1]) + (sep + parts[|parts| - 1])
  {
  }

  /** An occurrence inside an occurrence is an occurrence. */
  lemma AtWithin(s: string, outer: string, a: nat, inner: string, b: nat)
    requires At(s, outer, a) && At(outer, inner, b)
    ensures At(s, inner, a + b)
  {
    forall k | 0 <= k < |inner| ensures s[a + b + k] == inner[k] {
      assert inner[k] == outer[b + k];
      assert outer[b + k] == s[a..a + |outer|][b + k];
    }
    assert s[a + b..a + b + |inner|] == inner;
  }

  /** A join is as long as its parts and one separator between each two
      neighbours: nothing comes before the first part or after the last. */
  lemma {:induction false} JoinLength(sep: string, parts: seq<string>)
    requires parts != []
    ensures |Join(sep, parts)| == Offset(sep, parts, |parts| - 1) + |parts[|parts| - 1]|
  {
    var n := |parts| - 1;
    if n > 0 {
      var init := parts[..n];
      JoinSnoc(sep, parts);
      JoinLength(sep, init);
      OffsetOfPrefix(sep, parts, n, n - 1);
    }
  }

  /** Every part appears, in order, at its offset. */
  lemma {:induction false} JoinPartAt(sep: string, parts: seq<string>, i: nat)
    requires i < |parts|
    ensures At(Join(sep, parts), parts[i], Offset(sep, parts, i))
  {
    var n := |parts| - 1;
    if n > 0 {
      var init := parts[..n];
      var left := Join(sep, init);
      JoinSnoc(sep, parts);
      if i == n {
        JoinLength(sep, init);
        OffsetOfPrefix(sep, parts, n, n - 1);
        var r := left + (sep + parts[n]);
        assert r[|left| + |sep|..|left| + |sep| + |parts[n]|] == parts[n];
      } else {
        JoinPartAt(sep, init, i);
        OffsetOfPrefix(sep, parts, n, i);
        AtPrefix(left, sep + parts[n], init[i], Offset(sep, parts, i));
      }
    }
  }

  /** Exactly one separator sits between each part and the next. */
  lemma {:induction false} JoinSepAt(sep: string, parts: seq<string>, i: nat)
    requires i + 1 < |parts|
    ensures At(Join(sep, parts), sep, Offset(sep, parts, i) + |parts[i]|)
  {
    var n := |parts| - 1;
    var init := parts[..n];
    var left := Join(sep, init);
    JoinSnoc(sep, parts);
    OffsetOfPrefix(sep, parts, n, i);
    if i + 1 == n {
      JoinLength(sep, init);
      var r := left + (sep + parts[n]);
      assert r[|left|..|left| + |sep|] == sep;
    } else {
      JoinSepAt(sep, init, i);
      AtPrefix(left, sep + parts[n], sep, Offset(sep, init, i) + |init[i]|);
    }
  }

  /** The layout of a join around part i: the part at its offset, and the
      separator right after it unless it is the last part. */
  lemma JoinAt(sep: string, parts: seq<string>, i: nat)
    requires i < |parts|
    ensures At(Join(sep, parts), parts[i], Offset(sep, parts, i))
    ensures i + 1 < |parts| ==> At(Join(sep, parts), sep, Offset(sep, parts, i) + |parts[i]|)
  {
    JoinPartAt(sep, parts, i);
    if i + 1 < |parts| {
      JoinSepAt(sep, parts, i);
    }
  }

  /** What occurs inside part i occurs in the join, shifted by the part's offset. */
  lemma JoinInner(sep: string, parts: seq<string>, i: nat, inner: string, b: nat)
    requires i < |parts| && At(parts[i], inner, b)
    ensures At(Join(sep, parts), inner, Offset(sep, parts, i) + b)
  {
    JoinPartAt(sep, parts, i);
    AtWithin(Join(sep, parts), parts[i], Offset(sep, parts, i), inner, b);
  }

  /** Position of the first '\n' in `s`, or `|s|` when there is none. */
  function FirstNewline(s: string): (r: nat)
    ensures r <= |s|
    ensures forall k :: 0 <= k < r ==> s[k] != '\n'
    ensures r < |s| ==> s[r] == '\n'
  {
    if s == [] || s[0] == '\n' then 0 else 1 + FirstNewline(s[1..])
  }

  /** `s.splitlines()`: the lines of `s` without their line breaks; a final
      line break does not start another (empty) line, and blank lines in the
      middle are kept. */
  function SplitLines(s: string): seq<string>
    decreases |s|
  {
    if s == [] then []
    else
      var i := FirstNewline(s);
      if i == |s| then [s] else [s[..i]] + SplitLines(s[i + 1..])
  }

  /** The lines written out again, each followed by a line break. */
  function Terminated(lines: seq<string>): string
  {
    if lines == [] then "" else lines[0] + "\n" + Terminated(lines[1..])
  }

  /** No line of `SplitLines(s)` holds a line break. */
  lemma {:induction false} LinesHaveNoBreak(s: string)
    ensures forall i :: 0 <= i < |SplitLines(s)| ==> '\n' !in SplitLines(s)[i]
    decreases |s|
  {
    if s != [] {
      var i := FirstNewline(s);
      if i < |s| {
        LinesHaveNoBreak(s[i + 1..]);
        assert '\n' !in s[..i] by {
          forall k | 0 <= k < i ensures s[..i][k] != '\n' { }
        }
      } else {
        assert '\n' !in s by {
          forall k | 0 <= k < |s| ensures s[k] != '\n' { }
        }
      }
    }
  }

  /** Splitting what `Terminated` wrote gives back the lines, blank ones
      included. */
  lemma {:induction false} SplitTerminated(lines: seq<string>)
    requires forall i :: 0 <= i < |lines| ==> '\n' !in lines[i]
    ensures SplitLines(Terminated(lines)) == lines
  {
    if lines != [] {
      var l, rest := lines[0], Terminated(lines[1..]);
      var s := Terminated(lines);
      assert s == l + "\n" + rest;
      var i := FirstNewline(s);
      assert s[|l|] == '\n';
      assert forall k :: 0 <= k < |l| ==> s[k] == l[k];
      assert i == |l|;
      assert s[..i] == l;
      assert s[i + 1..] == rest;
      SplitTerminated(lines[1..]);
    }
  }

  /** Writing the lines of `s` back out gives `s`, with a line break added at
      the end when `s` is not empty and lacks one. */
  lemma {:induction false} TerminatedSplit(s: string)
    ensures Terminated(SplitLines(s)) == if s == [] || s[|s| - 1] == '\n' then s else s + "\n"
    decreases |s|
  {
    if s != [] {
      var i := FirstNewline(s);
      if i == |s| {
        assert SplitLines(s) == [s];
        assert SplitLines(s)[1..] == [];
      } else {
        var tail := s[i + 1..];
        TerminatedSplit(tail);
        var lines := SplitLines(s);
        assert lines == [s[..i]] + SplitLines(tail);
        assert lines[1..] == SplitLines(tail);
        assert s == s[..i] + "\n" + tail;
        if tail != [] {
          assert s[|s| - 1] == tail[|tail| - 1];
        }
      }
    }
  }
}
