/** The symlink-chain resolution of `_Watch.add`, `addlink` and `addleaf`
    (inotify/newwatcher.py:241-273) as a function of the operating system's
    answers. The imperative loop in module NewWatcher is proved to follow it. */
module Resolution {
  import opened Wrappers
  import opened Bits
  import opened Flags
  import opened Paths

  type Errno = int

  const ENOENT: Errno := 2
  const ENOTDIR: Errno := 20
  const EINVAL: Errno := 22

  /** `(st.st_dev, st.st_ino)` */
  datatype Inode = Inode(dev: int, ino: int)

  /** What the resolution asks its environment: `os.readlink`,
      `inotify.add_watch` (giving a watch descriptor) and `os.stat`, each of
      which either answers or fails with an errno as an OSError would; and
      the two path functions of lines 248 and 271, `path.split` and the join
      of a directory with a link's contents. `PosixPaths` pins the latter two
      to the `posixpath` behaviour modelled in module Paths. */
  datatype Os = Os(
    readlink: string -> Result<string, Errno>,
    addWatch: (string, nat) -> Result<int, Errno>,
    stat: string -> Result<Inode, Errno>,
    split: string -> (string, string),
    join: (string, string) -> string)
  {
    /** `path.dirname(p)`, which is the head of `path.split(p)`. */
    function Dirname(p: string): string { split(p).0 }

    /** The path that follows a symlink at `p` with contents `target` (line
        248, read as `path.join(path.dirname(pth), link)`). */
    function NextPath(p: string, target: string): string { join(Dirname(p), target) }
  }

  ghost predicate PosixPaths(os: Os)
  {
    && (forall p :: os.split(p) == PosixSplit(p))
    && (forall a, b :: os.join(a, b) == PosixJoin(a, b))
  }

  /** `_Link` (lines 285-292): position in the chain, registered mask, the
      watched path and, for a symlink segment, the entry-name filter. */
  datatype Link = Link(idx: nat, mask: nat, path: string, name: Option<string>) {
    predicate IsLeaf() { name.None? }
  }

  /** The mask of a symlink segment (line 272), written as its value;
      `SymlinkMaskValue` shows it is the OR of the four flags named there. */
  const SYMLINK_MASK: nat := 0x10003C0

  /** SYMLINK_MASK is IN_MOVE | IN_DELETE | IN_CREATE | IN_ONLYDIR, OR-ed left to right. */
  lemma SymlinkMaskValue()
    ensures SYMLINK_MASK == Or(Or(Or(IN_MOVE, IN_DELETE), IN_CREATE), IN_ONLYDIR)
  {
    SymlinkMaskSteps(IN_MOVE, IN_DELETE, IN_CREATE, IN_ONLYDIR);
  }

  lemma SymlinkMaskSteps(a: nat, b: nat, c: nat, d: nat)
    requires a == IN_MOVE && b == IN_DELETE && c == IN_CREATE && d == IN_ONLYDIR
    ensures Or(Or(Or(a, b), c), d) == SYMLINK_MASK
  {
    OrBelowPow2(a, b);
    AndPow2(a + b, c);
    OrDisjointAdd(a + b, c);
    OrBelowPow2(a + b + c, d);
  }

  /** The mask of the leaf (line 265): the user's bits and self-move, self-delete. */
  function LeafMask(userMask: nat): (m: nat)
    ensures HasAny(m, IN_MOVE_SELF) && HasAny(m, IN_DELETE_SELF)
  {
    var m := Or(Or(userMask, IN_MOVE_SELF), IN_DELETE_SELF);
    AndSelf(IN_MOVE_SELF);
    AndSelf(IN_DELETE_SELF);
    HasAnyOr(userMask, IN_MOVE_SELF, IN_MOVE_SELF);
    HasAnyOr(Or(userMask, IN_MOVE_SELF), IN_DELETE_SELF, IN_MOVE_SELF);
    HasAnyOr(Or(userMask, IN_MOVE_SELF), IN_DELETE_SELF, IN_DELETE_SELF);
    m
  }

  /** The leaf mask keeps every bit the user asked for, and adds only
      self-move and self-delete. */
  lemma LeafMaskBits(userMask: nat, b: nat)
    ensures HasAny(LeafMask(userMask), b)
        <==> HasAny(userMask, b) || HasAny(IN_MOVE_SELF, b) || HasAny(IN_DELETE_SELF, b)
  {
    HasAnyOr(userMask, IN_MOVE_SELF, b);
    HasAnyOr(Or(userMask, IN_MOVE_SELF), IN_DELETE_SELF, b);
  }

  /** The loop of lines 241-262 stops within `n` symlink steps from `p`: it
      meets a path that is not a readable link, or a link whose directory
      cannot be watched. A cycle whose segments all register never stops,
      and the source then loops for ever. */
  predicate ChainEnds(os: Os, p: string, n: nat)
    decreases n
  {
    match os.readlink(p)
    case Success(target) =>
      os.addWatch(os.Dirname(p), SYMLINK_MASK).Failure? ||
      (n > 0 && ChainEnds(os, os.NextPath(p, target), n - 1))
    case Failure(_) => true
  }

  /** How a resolution ends. `Leaf` and `Dangling` return normally (the inode
      is recorded only for `Leaf`); `NotFound` is the exception of line 257;
      `Failed` is an OSError that propagates. */
  datatype Outcome = Leaf(inode: Inode) | Dangling | NotFound(path: string) | Failed(errno: Errno)

  /** The links appended, in order, and the outcome. */
  datatype Resolved = Resolved(links: seq<Link>, outcome: Outcome)

  /** The `except OSError` branch (lines 250-260) for errno `e` raised while
      at `p`, `depth` symlinks deep, with `base` links already in the chain. */
  function Stop(os: Os, userMask: nat, p: string, depth: nat, base: nat, e: Errno): Resolved
  {
    if e == EINVAL then LeafStep(os, userMask, p, base)
    else if e == ENOENT || e == ENOTDIR then
      if depth == 0 then Resolved([], NotFound(p)) else Resolved([], Dangling)
    else Resolved([], Failed(e))
  }

  /** `addleaf` (lines 264-268): register and append the leaf, then stat it.
      Neither call is inside the `try`, so their errors propagate. */
  function LeafStep(os: Os, userMask: nat, p: string, base: nat): Resolved
  {
    match os.addWatch(p, LeafMask(userMask))
    case Failure(e) => Resolved([], Failed(e))
    case Success(_) =>
      var leaf := Link(base, LeafMask(userMask), p, None);
      match os.stat(p)
      case Success(inode) => Resolved([leaf], Leaf(inode))
      case Failure(e) => Resolved([leaf], Failed(e))
  }

  /** The loop of lines 243-262 from path `p`. A symlink is registered by
      `addlink` (lines 270-273) inside the `try`, so an error of its
      `add_watch` is classified like an error of `readlink`. */
  function ResolveFrom(os: Os, userMask: nat, p: string, depth: nat, base: nat, bound: nat): Resolved
    requires ChainEnds(os, p, bound)
    decreases bound
  {
    match os.readlink(p)
    case Failure(e) => Stop(os, userMask, p, depth, base, e)
    case Success(target) =>
      match os.addWatch(os.Dirname(p), SYMLINK_MASK)
      case Failure(e) => Stop(os, userMask, p, depth, base, e)
      case Success(_) =>
        var rest := ResolveFrom(os, userMask, os.NextPath(p, target), depth + 1, base + 1, bound - 1);
        Resolved([Link(base, SYMLINK_MASK, os.Dirname(p), Some(os.split(p).1))] + rest.links, rest.outcome)
  }

  /** `_Watch.add(pth)` on a fresh watch. */
  function Resolve(os: Os, userMask: nat, pth: string, bound: nat): Resolved
    requires ChainEnds(os, pth, bound)
  {
    ResolveFrom(os, userMask, pth, 0, 0, bound)
  }

  /** Every chain consists of links with consecutive indices from `base`; a
      leaf can only be the last link; a leaf carries the leaf mask and every
      other link the symlink mask. */
  predicate WellShaped(links: seq<Link>, userMask: nat, base: nat)
  {
    && (forall i :: 0 <= i < |links| ==> links[i].idx == base + i)
    && (forall i :: 0 <= i < |links| && links[i].IsLeaf() ==> i == |links| - 1)
    && (forall i :: 0 <= i < |links| ==>
          links[i].mask == if links[i].IsLeaf() then LeafMask(userMask) else SYMLINK_MASK)
  }

  lemma WellShapedCons(l: Link, links: seq<Link>, userMask: nat, base: nat)
    requires l == Link(base, SYMLINK_MASK, l.path, l.name) && l.name.Some?
    requires WellShaped(links, userMask, base + 1)
    ensures WellShaped([l] + links, userMask, base)
  {
    var r := [l] + links;
    assert forall i :: 0 < i < |r| ==> r[i] == links[i - 1];
  }

  /** With `posixpath`, a symlink segment loses nothing of the link's path:
      the components of the watched directory followed by the entry name are
      the components of the link's path, and the name holds no separator. */
  lemma SegmentKeepsPath(os: Os, p: string)
    requires PosixPaths(os)
    ensures Normpath(os.Dirname(p)) + Normpath(os.split(p).1) == Normpath(p)
    ensures SEP !in os.split(p).1
  {
    SplitKeepsComponents(p);
    PosixSplitSpec(p);
  }

  /** With `posixpath`, an absolute link target replaces the path, and a
      relative one is read inside the link's directory. */
  lemma NextPathComponents(os: Os, p: string, target: string)
    requires PosixPaths(os)
    ensures target != [] && target[0] == SEP ==> os.NextPath(p, target) == target
    ensures Normpath(os.NextPath(p, target)) ==
      if target != [] && target[0] == SEP then Normpath(target)
      else Normpath(os.Dirname(p)) + Normpath(target)
  {
    JoinNormpath(os.Dirname(p), target);
  }

  /** One turn of the loop: a failing `readlink` or `add_watch` ends in the
      `except` branch; otherwise one symlink segment for the link's directory and
      name is appended and resolution continues at the link's target. */
  lemma ResolveStep(os: Os, userMask: nat, p: string, depth: nat, base: nat, bound: nat)
    requires ChainEnds(os, p, bound)
    ensures ResolveFrom(os, userMask, p, depth, base, bound) ==
      if os.readlink(p).Failure? then Stop(os, userMask, p, depth, base, os.readlink(p).error)
      else if os.addWatch(os.Dirname(p), SYMLINK_MASK).Failure? then
        Stop(os, userMask, p, depth, base, os.addWatch(os.Dirname(p), SYMLINK_MASK).error)
      else
        var rest := ResolveFrom(os, userMask, os.NextPath(p, os.readlink(p).value), depth + 1, base + 1, bound - 1);
        Resolved([Link(base, SYMLINK_MASK, os.Dirname(p), Some(os.split(p).1))] + rest.links, rest.outcome)
  { }

  /** A `readlink` error goes to the `except` branch. */
  lemma ResolveNotLink(os: Os, userMask: nat, p: string, depth: nat, base: nat, bound: nat)
    requires ChainEnds(os, p, bound) && os.readlink(p).Failure?
    ensures ResolveFrom(os, userMask, p, depth, base, bound)
         == Stop(os, userMask, p, depth, base, os.readlink(p).error)
  {
    ResolveStep(os, userMask, p, depth, base, bound);
  }

  /** An `add_watch` error for a symlink's directory goes there too. */
  lemma ResolveLinkRefused(os: Os, userMask: nat, p: string, depth: nat, base: nat, bound: nat)
    requires ChainEnds(os, p, bound) && os.readlink(p).Success?
    requires os.addWatch(os.Dirname(p), SYMLINK_MASK).Failure?
    ensures ResolveFrom(os, userMask, p, depth, base, bound)
         == Stop(os, userMask, p, depth, base, os.addWatch(os.Dirname(p), SYMLINK_MASK).error)
  {
    ResolveStep(os, userMask, p, depth, base, bound);
  }

  /** A registered symlink adds its segment and moves on to its target,
      which is one step closer to the end of the chain. */
  lemma ResolveLinkFollowed(os: Os, userMask: nat, p: string, depth: nat, base: nat, bound: nat)
    requires ChainEnds(os, p, bound) && os.readlink(p).Success?
    requires os.addWatch(os.Dirname(p), SYMLINK_MASK).Success?
    ensures bound > 0 && ChainEnds(os, os.NextPath(p, os.readlink(p).value), bound - 1)
    ensures var rest := ResolveFrom(os, userMask, os.NextPath(p, os.readlink(p).value), depth + 1, base + 1, bound - 1);
      ResolveFrom(os, userMask, p, depth, base, bound)
        == Resolved([Link(base, SYMLINK_MASK, os.Dirname(p), Some(os.split(p).1))] + rest.links, rest.outcome)
  {
    ResolveStep(os, userMask, p, depth, base, bound);
  }

  /** The loop form of `ResolveLinkFollowed`: when the links found so far
      followed by the rest of the resolution make up the whole, they still do
      after one more symlink is followed. */
  lemma AdvanceChain(os: Os, userMask: nat, p: string, depth: nat, links: seq<Link>, links': seq<Link>, bound: nat, whole: Resolved)
    requires ChainEnds(os, p, bound) && os.readlink(p).Success?
    requires os.addWatch(os.Dirname(p), SYMLINK_MASK).Success?
    requires var rest := ResolveFrom(os, userMask, p, depth, |links|, bound);
      links + rest.links == whole.links && rest.outcome == whole.outcome
    requires links' == links + [Link(|links|, SYMLINK_MASK, os.Dirname(p), Some(os.split(p).1))]
    ensures bound > 0 && ChainEnds(os, os.NextPath(p, os.readlink(p).value), bound - 1)
    ensures var rest := ResolveFrom(os, userMask, os.NextPath(p, os.readlink(p).value), depth + 1, |links'|, bound - 1);
      links' + rest.links == whole.links && rest.outcome == whole.outcome
  {
    ResolveLinkFollowed(os, userMask, p, depth, |links|, bound);
    var l := Link(|links|, SYMLINK_MASK, os.Dirname(p), Some(os.split(p).1));
    var rest := ResolveFrom(os, userMask, os.NextPath(p, os.readlink(p).value), depth + 1, |links| + 1, bound - 1);
    assert (links + [l]) + rest.links == links + ([l] + rest.links);
  }

  /** Every chain is well shaped. */
  lemma {:induction false} ResolveWellShaped(os: Os, userMask: nat, p: string, depth: nat, base: nat, bound: nat)
    requires ChainEnds(os, p, bound)
    ensures WellShaped(ResolveFrom(os, userMask, p, depth, base, bound).links, userMask, base)
    decreases bound
  {
    ResolveStep(os, userMask, p, depth, base, bound);
    if os.readlink(p).Success? && os.addWatch(os.Dirname(p), SYMLINK_MASK).Success? {
      var next := os.NextPath(p, os.readlink(p).value);
      var rest := ResolveFrom(os, userMask, next, depth + 1, base + 1, bound - 1);
      ResolveWellShaped(os, userMask, next, depth + 1, base + 1, bound - 1);
      WellShapedCons(Link(base, SYMLINK_MASK, os.Dirname(p), Some(os.split(p).1)), rest.links, userMask, base);
    }
  }

  /** The `except` branch appends at most the leaf, and the leaf only with a
      `Leaf` outcome or a failed `stat`. */
  lemma StopShape(os: Os, userMask: nat, p: string, depth: nat, base: nat, e: Errno)
    ensures var r := Stop(os, userMask, p, depth, base, e);
      && (r.outcome.Leaf? ==> |r.links| == 1 && r.links[0].IsLeaf())
      && (r.outcome.Dangling? ==> depth >= 1 && r.links == [])
      && (r.outcome.NotFound? ==> r.links == [] && depth == 0)
  { }

  /** How the outcome shapes the chain: a `Leaf` outcome ends in a leaf, a
      dangling one has only symlink segments and at least one link overall,
      and `NotFound` is reported only before any symlink was followed. */
  lemma {:induction false} ResolveShape(os: Os, userMask: nat, p: string, depth: nat, base: nat, bound: nat)
    requires ChainEnds(os, p, bound)
    ensures var r := ResolveFrom(os, userMask, p, depth, base, bound);
      && (r.outcome.Leaf? ==> |r.links| >= 1 && r.links[|r.links| - 1].IsLeaf())
      && (r.outcome.Dangling? ==> depth + |r.links| >= 1 && forall i :: 0 <= i < |r.links| ==> !r.links[i].IsLeaf())
      && (r.outcome.NotFound? ==> r.links == [] && depth == 0)
    decreases bound
  {
    ResolveStep(os, userMask, p, depth, base, bound);
    if os.readlink(p).Failure? {
      StopShape(os, userMask, p, depth, base, os.readlink(p).error);
    } else if os.addWatch(os.Dirname(p), SYMLINK_MASK).Failure? {
      StopShape(os, userMask, p, depth, base, os.addWatch(os.Dirname(p), SYMLINK_MASK).error);
    } else {
      var next := os.NextPath(p, os.readlink(p).value);
      var rest := ResolveFrom(os, userMask, next, depth + 1, base + 1, bound - 1);
      ResolveShape(os, userMask, next, depth + 1, base + 1, bound - 1);
      var r := ResolveFrom(os, userMask, p, depth, base, bound);
      assert forall i :: 0 < i < |r.links| ==> r.links[i] == rest.links[i - 1];
    }
  }

  /** `n` symlinks from `p`, each readable and with a registrable directory. */
  predicate SymlinkChain(os: Os, p: string, n: nat)
    decreases n
  {
    n == 0 ||
    match os.readlink(p)
    case Success(target) =>
      os.addWatch(os.Dirname(p), SYMLINK_MASK).Success? && SymlinkChain(os, os.NextPath(p, target), n - 1)
    case Failure(_) => false
  }

  /** The path reached after following up to `n` symlinks from `p`. */
  function Follow(os: Os, p: string, n: nat): string
    decreases n
  {
    if n == 0 then p
    else match os.readlink(p)
      case Success(target) => Follow(os, os.NextPath(p, target), n - 1)
      case Failure(_) => p
  }

  /** A chain of `n` symlinks ends within `bound` steps of `p` only if what
      follows it ends within the remaining steps. */
  lemma {:induction false} ChainEndsAfter(os: Os, p: string, n: nat, bound: nat)
    requires SymlinkChain(os, p, n) && ChainEnds(os, p, bound)
    ensures n <= bound && ChainEnds(os, Follow(os, p, n), bound - n)
    decreases n
  {
    if n > 0 {
      ChainEndsAfter(os, os.NextPath(p, os.readlink(p).value), n - 1, bound - 1);
    }
  }

  lemma DropCons<T>(x: T, s: seq<T>, n: nat)
    requires 1 <= n <= |s| + 1
    ensures ([x] + s)[n..] == s[n - 1..]
  {
  }

  /** Resolving through a chain of `n` symlinks appends `n` links and then
      continues from where the chain leads, `n` deeper. */
  lemma {:induction false} ResolveThroughChain(os: Os, userMask: nat, p: string, depth: nat, base: nat, bound: nat, n: nat)
    requires ChainEnds(os, p, bound) && SymlinkChain(os, p, n)
    ensures n <= bound && ChainEnds(os, Follow(os, p, n), bound - n)
    ensures var r := ResolveFrom(os, userMask, p, depth, base, bound);
      var rest := ResolveFrom(os, userMask, Follow(os, p, n), depth + n, base + n, bound - n);
      && |r.links| == n + |rest.links|
      && r.links[n..] == rest.links
      && r.outcome == rest.outcome
    decreases n
  {
    ChainEndsAfter(os, p, n, bound);
    if n == 0 {
      assert Follow(os, p, n) == p;
    } else {
      var next := os.NextPath(p, os.readlink(p).value);
      ResolveLinkFollowed(os, userMask, p, depth, base, bound);
      ResolveThroughChain(os, userMask, next, depth + 1, base + 1, bound - 1, n - 1);
      assert Follow(os, p, n) == Follow(os, next, n - 1);
      assert depth + 1 + (n - 1) == depth + n && base + 1 + (n - 1) == base + n && bound - 1 - (n - 1) == bound - n;
      var r' := ResolveFrom(os, userMask, next, depth + 1, base + 1, bound - 1);
      DropCons(Link(base, SYMLINK_MASK, os.Dirname(p), Some(os.split(p).1)), r'.links, n);
    }
  }

  /** The `i`-th link appended through a chain of `n` symlinks is the symlink
      segment watching the directory of the `i`-th path of the chain for that
      path's own name. */
  lemma {:induction false} ChainLinks(os: Os, userMask: nat, p: string, depth: nat, base: nat, bound: nat, n: nat)
    requires ChainEnds(os, p, bound) && SymlinkChain(os, p, n)
    ensures var r := ResolveFrom(os, userMask, p, depth, base, bound);
      && |r.links| >= n
      && forall i :: 0 <= i < n ==>
           r.links[i] == Link(base + i, SYMLINK_MASK, os.Dirname(Follow(os, p, i)), Some(os.split(Follow(os, p, i)).1))
    decreases n
  {
    if n > 0 {
      var next := os.NextPath(p, os.readlink(p).value);
      ResolveStep(os, userMask, p, depth, base, bound);
      ChainLinks(os, userMask, next, depth + 1, base + 1, bound - 1, n - 1);
      var r := ResolveFrom(os, userMask, p, depth, base, bound);
      var r' := ResolveFrom(os, userMask, next, depth + 1, base + 1, bound - 1);
      forall i | 0 < i < n
        ensures r.links[i] == Link(base + i, SYMLINK_MASK, os.Dirname(Follow(os, p, i)), Some(os.split(Follow(os, p, i)).1))
      {
        assert Follow(os, p, i) == Follow(os, next, i - 1);
        assert r.links[i] == r'.links[i - 1];
      }
    }
  }

  /** Through `n` symlinks to an entry that is not a link: `n + 1` links with
      indices `0..n`, the last the leaf at the resolved path, and the inode of
      that path as the outcome. */
  lemma ResolveToEntry(os: Os, userMask: nat, pth: string, bound: nat, n: nat)
    requires ChainEnds(os, pth, bound) && SymlinkChain(os, pth, n)
    requires var q := Follow(os, pth, n);
      os.readlink(q) == Failure(EINVAL) && os.addWatch(q, LeafMask(userMask)).Success? && os.stat(q).Success?
    ensures var r := Resolve(os, userMask, pth, bound);
      && |r.links| == n + 1
      && (forall i :: 0 <= i < n ==> r.links[i] == Link(i, SYMLINK_MASK, os.Dirname(Follow(os, pth, i)), Some(os.split(Follow(os, pth, i)).1)))
      && r.links[n] == Link(n, LeafMask(userMask), Follow(os, pth, n), None)
      && r.outcome == Leaf(os.stat(Follow(os, pth, n)).value)
  {
    ResolveThroughChain(os, userMask, pth, 0, 0, bound, n);
    ChainLinks(os, userMask, pth, 0, 0, bound, n);
  }

  /** A chain of `n` symlinks ending at a missing entry: with `n == 0` the
      requested path itself is missing and the resolution fails with
      `NotFound`; otherwise it is a dangling symlink and the resolution ends
      normally with the `n` symlink segments and no leaf. */
  lemma ResolveToMissing(os: Os, userMask: nat, pth: string, bound: nat, n: nat)
    requires ChainEnds(os, pth, bound) && SymlinkChain(os, pth, n)
    requires os.readlink(Follow(os, pth, n)) in {Failure(ENOENT), Failure(ENOTDIR)}
    ensures var r := Resolve(os, userMask, pth, bound);
      && (n == 0 ==> r == Resolved([], NotFound(pth)))
      && (n > 0 ==> |r.links| == n && r.outcome == Dangling && forall i :: 0 <= i < n ==> !r.links[i].IsLeaf())
  {
    ResolveThroughChain(os, userMask, pth, 0, 0, bound, n);
    ChainLinks(os, userMask, pth, 0, 0, bound, n);
  }

  /** Any other errno of `readlink` propagates as `Failed`, after the symlink
      segments already appended. */
  lemma ResolveOtherError(os: Os, userMask: nat, pth: string, bound: nat, n: nat, e: Errno)
    requires ChainEnds(os, pth, bound) && SymlinkChain(os, pth, n)
    requires os.readlink(Follow(os, pth, n)) == Failure(e) && e !in {EINVAL, ENOENT, ENOTDIR}
    ensures var r := Resolve(os, userMask, pth, bound);
      |r.links| == n && r.outcome == Failed(e)
  {
    ResolveThroughChain(os, userMask, pth, 0, 0, bound, n);
  }

  /** A dangling resolution ends in a symlink segment, and that segment is
      the last link, so `handle_event` (line 276) tells its events apart
      from link changes by the user's mask alone. */
  lemma DanglingEndsAtSegment(os: Os, userMask: nat, pth: string, bound: nat)
    requires ChainEnds(os, pth, bound) && Resolve(os, userMask, pth, bound).outcome == Dangling
    ensures var r := Resolve(os, userMask, pth, bound);
      && |r.links| >= 1
      && r.links[|r.links| - 1].idx == |r.links| - 1
      && !r.links[|r.links| - 1].IsLeaf()
      && r.links[|r.links| - 1].mask == SYMLINK_MASK
  {
    ResolveShape(os, userMask, pth, 0, 0, bound);
    ResolveWellShaped(os, userMask, pth, 0, 0, bound);
  }

  /** A resolution that found its target ends with the leaf link, indexed
      last, with the leaf mask. */
  lemma LeafEndsChain(os: Os, userMask: nat, pth: string, bound: nat)
    requires ChainEnds(os, pth, bound) && Resolve(os, userMask, pth, bound).outcome.Leaf?
    ensures var r := Resolve(os, userMask, pth, bound);
      && |r.links| >= 1
      && r.links[|r.links| - 1].idx == |r.links| - 1
      && r.links[|r.links| - 1].IsLeaf()
      && r.links[|r.links| - 1].mask == LeafMask(userMask)
  {
    ResolveShape(os, userMask, pth, 0, 0, bound);
    ResolveWellShaped(os, userMask, pth, 0, 0, bound);
  }
}
