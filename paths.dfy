/** POSIX path strings as the watcher handles them: `str.split`, the
    component list of `_Watch._normpath` (inotify/newwatcher.py:232-233),
    and the `posixpath` functions `join`, `split` and `dirname` it relies on. */
module Paths {
  import opened Wrappers

  const SEP: char := '/'

  /** `s.split(c)`: the pieces between occurrences of `c`, empty ones included. */
  function SplitAt(s: string, c: char): (parts: seq<string>)
    ensures |parts| >= 1
    ensures forall i :: 0 <= i < |parts| ==> c !in parts[i]
  {
    if s == [] then [""]
    else
      var rest := SplitAt(s[1..], c);
      if s[0] == c then [""] + rest else [[s[0]] + rest[0]] + rest[1..]
  }

  /** `c.join(parts)` */
  function JoinWith(parts: seq<string>, c: char): string
  {
    if parts == [] then ""
    else if |parts| == 1 then parts[0]
    else parts[0] + [c] + JoinWith(parts[1..], c)
  }

  /** Joining the pieces of a split gives back the string. */
  lemma {:induction false} JoinSplit(s: string, c: char)
    ensures JoinWith(SplitAt(s, c), c) == s
  {
    if s != [] {
      JoinSplit(s[1..], c);
      var rest := SplitAt(s[1..], c);
      if s[0] == c {
        assert ([""] + rest)[1..] == rest;
      } else {
        assert ([[s[0]] + rest[0]] + rest[1..])[1..] == rest[1..];
        if |rest| > 1 {
          assert rest == [rest[0]] + rest[1..];
          assert JoinWith(rest, c) == rest[0] + [c] + JoinWith(rest[1..], c);
        }
      }
    }
  }

  /** A string without the separator splits into itself. */
  lemma {:induction false} SplitNoSep(s: string, c: char)
    requires c !in s
    ensures SplitAt(s, c) == [s]
  {
    if s != [] {
      assert s[0] in s;
      SplitNoSep(s[1..], c);
      assert [s[0]] + s[1..] == s;
    }
  }

  /** Splitting distributes over a separator: the pieces of `a + c + b` are
      the pieces of `a` followed by the pieces of `b`. */
  lemma {:induction false} SplitConcat(a: string, b: string, c: char)
    ensures SplitAt(a + [c] + b, c) == SplitAt(a, c) + SplitAt(b, c)
  {
    var s := a + [c] + b;
    if a == [] {
      assert s[1..] == b;
    } else {
      assert s[1..] == a[1..] + [c] + b;
      SplitConcat(a[1..], b, c);
    }
  }

  /** Splitting the join of separator-free pieces gives back the pieces. */
  lemma {:induction false} SplitJoin(parts: seq<string>, c: char)
    requires |parts| >= 1
    requires forall i :: 0 <= i < |parts| ==> c !in parts[i]
    ensures SplitAt(JoinWith(parts, c), c) == parts
  {
    SplitNoSep(parts[0], c);
    if |parts| > 1 {
      SplitJoin(parts[1..], c);
      SplitConcat(parts[0], JoinWith(parts[1..], c), c);
    }
  }

  /** A component the normalised path keeps. */
  predicate IsComponent(p: string) {
    p != "" && p != "." && SEP !in p
  }

  /** The list comprehension of line 233: drop every `''` and `'.'`. */
  function Clean(parts: seq<string>): (r: seq<string>)
    ensures forall i :: 0 <= i < |r| ==> r[i] != "" && r[i] != "."
    ensures forall i :: 0 <= i < |r| ==> r[i] in parts
  {
    if parts == [] then []
    else (if parts[0] == "" || parts[0] == "." then [] else [parts[0]]) + Clean(parts[1..])
  }

  /** Filtering keeps the order: it distributes over concatenation. */
  lemma {:induction false} CleanConcat(a: seq<string>, b: seq<string>)
    ensures Clean(a + b) == Clean(a) + Clean(b)
  {
    if a != [] {
      var h: seq<string> := if a[0] == "" || a[0] == "." then [] else [a[0]];
      assert (a + b)[0] == a[0] && (a + b)[1..] == a[1..] + b;
      CleanConcat(a[1..], b);
      assert Clean(a + b) == h + (Clean(a[1..]) + Clean(b));
    } else {
      assert a + b == b;
    }
  }

  /** `_Watch._normpath` (lines 232-233). */
  function Normpath(pth: string): (comps: seq<string>)
    ensures forall i :: 0 <= i < |comps| ==> IsComponent(comps[i])
  {
    var parts := SplitAt(pth, SEP);
    var r := Clean(parts);
    assert forall i :: 0 <= i < |r| ==> r[i] in parts && SEP !in r[i];
    r
  }

  lemma NormpathEmpty()
    ensures Normpath("") == []
  {
    assert SplitAt("", SEP) == [""];
    assert Clean([""]) == [] + Clean([]);
  }

  /** The components of `a + "/" + b` are those of `a` followed by those of `b`. */
  lemma NormpathConcat(a: string, b: string)
    ensures Normpath(a + [SEP] + b) == Normpath(a) + Normpath(b)
  {
    SplitConcat(a, b, SEP);
    CleanConcat(SplitAt(a, SEP), SplitAt(b, SEP));
  }

  /** A list of components survives being joined with '/' and normalised. */
  lemma {:induction false} NormpathOfJoin(comps: seq<string>)
    requires forall i :: 0 <= i < |comps| ==> IsComponent(comps[i])
    ensures Normpath(JoinWith(comps, SEP)) == comps
  {
    if comps == [] {
      NormpathEmpty();
    } else {
      SplitJoin(comps, SEP);
      CleanOfComponents(comps);
    }
  }

  lemma {:induction false} CleanOfComponents(comps: seq<string>)
    requires forall i :: 0 <= i < |comps| ==> IsComponent(comps[i])
    ensures Clean(comps) == comps
  {
    if comps != [] {
      CleanOfComponents(comps[1..]);
    }
  }

  /** `posixpath.join(a, b)` */
  function PosixJoin(a: string, b: string): (r: string)
  {
    if |b| > 0 && b[0] == SEP then b
    else if a == "" || a[|a| - 1] == SEP then a + b
    else a + [SEP] + b
  }

  /** An absolute second operand replaces the first; otherwise the components
      on both sides are kept, in order. */
  lemma JoinNormpath(a: string, b: string)
    ensures Normpath(PosixJoin(a, b))
         == if |b| > 0 && b[0] == SEP then Normpath(b) else Normpath(a) + Normpath(b)
  {
    if |b| > 0 && b[0] == SEP {
    } else if a == "" {
      assert a + b == b;
      NormpathEmpty();
    } else if a[|a| - 1] == SEP {
      var a' := a[..|a| - 1];
      assert a + b == a' + [SEP] + b;
      assert a == a' + [SEP] + "";
      NormpathConcat(a', b);
      NormpathConcat(a', "");
      NormpathEmpty();
    } else {
      NormpathConcat(a, b);
    }
  }

  /** `path.join(first, *rest)` over a non-empty list, folded from the left. */
  function JoinLeft(parts: seq<string>): string
    requires |parts| >= 1
  {
    if |parts| == 1 then parts[0] else PosixJoin(JoinLeft(parts[..|parts| - 1]), parts[|parts| - 1])
  }

  /** `path.join(*parts)`: `None` stands for the TypeError Python raises when
      `parts` is empty. */
  function JoinAll(parts: seq<string>): (r: Option<string>)
    ensures r.None? <==> parts == []
  {
    if parts == [] then None else Some(JoinLeft(parts))
  }

  lemma {:induction false} JoinWithSnoc(parts: seq<string>, x: string, c: char)
    requires |parts| >= 1
    ensures JoinWith(parts + [x], c) == JoinWith(parts, c) + [c] + x
  {
    if |parts| > 1 {
      assert (parts + [x])[1..] == parts[1..] + [x];
      JoinWithSnoc(parts[1..], x, c);
    }
  }

  /** Joining normalised components with `path.join` puts exactly one '/'
      between them: the result is the '/'-join, with no leading '/'. */
  lemma {:induction false} JoinAllComponents(comps: seq<string>)
    requires |comps| >= 1
    requires forall i :: 0 <= i < |comps| ==> IsComponent(comps[i])
    ensures JoinAll(comps) == Some(JoinWith(comps, SEP))
    ensures |JoinWith(comps, SEP)| > 0
    ensures JoinWith(comps, SEP)[0] != SEP
    ensures JoinWith(comps, SEP)[|JoinWith(comps, SEP)| - 1] != SEP
    decreases |comps|
  {
    var n := |comps|;
    if n == 1 {
      assert comps[0][0] in comps[0];
      assert comps[0][|comps[0]| - 1] in comps[0];
    } else {
      var init := comps[..n - 1];
      var last := comps[n - 1];
      JoinAllComponents(init);
      assert comps == init + [last];
      JoinWithSnoc(init, last, SEP);
      assert last[0] in last && last[|last| - 1] in last;
      var j := JoinWith(init, SEP);
      assert PosixJoin(j, last) == j + [SEP] + last;
    }
  }

  /** Rejoining the components of a path and normalising again gives the same
      components; when the path was absolute, the rejoined string has lost
      its leading '/'. */
  lemma RejoinedNormpath(pth: string)
    requires Normpath(pth) != []
    ensures JoinAll(Normpath(pth)).Some?
    ensures Normpath(JoinAll(Normpath(pth)).value) == Normpath(pth)
    ensures JoinAll(Normpath(pth)).value[0] != SEP
  {
    JoinAllComponents(Normpath(pth));
    NormpathOfJoin(Normpath(pth));
  }

  /** `p.rfind(SEP)`: the index of the last separator, or -1. */
  function LastSep(p: string): (r: int)
    ensures -1 <= r < |p|
  {
    if p == [] then -1
    else if p[|p| - 1] == SEP then |p| - 1
    else LastSep(p[..|p| - 1])
  }

  lemma {:induction false} LastSepSpec(p: string)
    ensures LastSep(p) >= 0 ==> p[LastSep(p)] == SEP
    ensures forall j :: LastSep(p) < j < |p| ==> p[j] != SEP
    decreases |p|
  {
    if p != [] && p[|p| - 1] != SEP {
      LastSepSpec(p[..|p| - 1]);
    }
  }

  /** `s.rstrip(c)` */
  function RStrip(s: string, c: char): (r: string)
    ensures |r| <= |s|
  {
    if s == [] || s[|s| - 1] != c then s else RStrip(s[..|s| - 1], c)
  }

  /** Stripping keeps a prefix, removes only `c` and leaves no `c` at the end. */
  lemma {:induction false} RStripSpec(s: string, c: char)
    ensures RStrip(s, c) == s[..|RStrip(s, c)|]
    ensures RStrip(s, c) == "" || RStrip(s, c)[|RStrip(s, c)| - 1] != c
    ensures forall j :: |RStrip(s, c)| <= j < |s| ==> s[j] == c
    decreases |s|
  {
    if !(s == [] || s[|s| - 1] != c) {
      RStripSpec(s[..|s| - 1], c);
    }
  }

  /** `s == SEP * len(s)` */
  predicate AllSep(s: string)
  {
    s == [] || (s[0] == SEP && AllSep(s[1..]))
  }

  /** `posixpath.split(p)`: the part up to the last separator, with trailing
      separators removed unless it consists of separators only, and the rest. */
  function PosixSplit(p: string): (string, string)
  {
    var i := LastSep(p) + 1;
    var head := p[..i];
    var tail := p[i..];
    if head != "" && !AllSep(head) then (RStrip(head, SEP), tail) else (head, tail)
  }

  /** The tail holds no separator, ends the path and starts after its last
      separator (or at its start); the head is a prefix of what comes before it. */
  lemma PosixSplitSpec(p: string)
    ensures var (head, tail) := PosixSplit(p);
      && SEP !in tail
      && |tail| <= |p| && p == p[..|p| - |tail|] + tail
      && (|tail| == |p| || p[|p| - |tail| - 1] == SEP)
      && |head| <= |p| - |tail| && head == p[..|head|]
  {
    var i := LastSep(p) + 1;
    LastSepSpec(p);
    RStripSpec(p[..i], SEP);
    assert p == p[..i] + p[i..];
    assert SEP !in p[i..] by {
      forall k | 0 <= k < |p[i..]| ensures p[i..][k] != SEP {
        assert p[i..][k] == p[i + k];
      }
    }
  }

  /** Normalising a string is unaffected by separators at its end. */
  lemma {:induction false} NormpathTrailing(s: string, n: nat)
    requires n <= |s|
    requires forall j :: n <= j < |s| ==> s[j] == SEP
    ensures Normpath(s) == Normpath(s[..n])
    decreases |s| - n
  {
    if n < |s| {
      NormpathTrailing(s, n + 1);
      assert s[..n + 1] == s[..n] + [SEP] + "";
      NormpathConcat(s[..n], "");
      NormpathEmpty();
    } else {
      assert s[..n] == s;
    }
  }

  /** Stripping the separators off the head does not change its components. */
  lemma SplitHeadComponents(p: string)
    ensures Normpath(PosixSplit(p).0) == Normpath(p[..LastSep(p) + 1])
  {
    var head := p[..LastSep(p) + 1];
    if PosixSplit(p).0 != head {
      RStripSpec(head, SEP);
      NormpathTrailing(head, |RStrip(head, SEP)|);
    }
  }

  /** Splitting a path never changes its components: those of the head
      followed by those of the tail are the components of the whole. */
  lemma SplitKeepsComponents(p: string)
    ensures Normpath(PosixSplit(p).0) + Normpath(PosixSplit(p).1) == Normpath(p)
  {
    var i := LastSep(p) + 1;
    var tail := p[i..];
    SplitHeadComponents(p);
    if i == 0 {
      assert p == tail;
      NormpathEmpty();
    } else {
      LastSepSpec(p);
      var h0 := p[..i - 1];
      assert p[..i] == h0 + [SEP] + "";
      assert p == h0 + [SEP] + tail;
      NormpathConcat(h0, tail);
      NormpathConcat(h0, "");
      NormpathEmpty();
    }
  }
}
