/** The watch registry and event multiplexer of inotify/newwatcher.py:
    `Watcher` (lines 165-219), `_Watch` (222-279), `_Link` (285-296) and
    `_Descriptor` (298-315). The specification functions come first; the
    three classes are proved against them. */
module NewWatcher {
  import opened Wrappers
  import opened Bits
  import opened Flags
  import opened Paths
  import opened Events
  import opened Resolution

  /** Why `read` raises: the NoFilesException of line 206 (a class the file
      never defines), the KeyError of line 210 for a descriptor number that
      is not registered, and the TypeError of `path.join()` with no argument
      (lines 277, 279) for a watch whose path has no component. */
  datatype ReadError = NoFiles | UnknownDescriptor(wd: int) | EmptyPath

  /** Why `add` raises: the AttributeError of line 175 (`_Watch` has no
      `update_mask`) for a path already added, the InotifyWatcherException of
      line 257 (also never defined), or an OSError that propagates. */
  datatype AddError = NoUpdateMask | DoesNotExist(path: string) | OsError(errno: Errno)

  /** One `(mask, name, callback)` entry of `_Descriptor.callbacks`; the
      callback is the bound method `handle_event` of `link`, which belongs to
      `watch`. */
  datatype Callback = Callback(mask: nat, name: Option<string>, watch: Watch, link: Link)

  /** The state of one `_Descriptor`: its mask and its callbacks. */
  datatype DescView = DescView(mask: nat, callbacks: seq<Callback>)

  /** `_watchdescriptors`, as the state of each descriptor. */
  type Registry = map<int, DescView>

  // ---------------------------------------------------------------------
  // Registration (lines 179-184, 306-308)

  /** `_createwatch` after `add_watch` answered `wd`: a descriptor for a new
      number starts with mask 0 and no callbacks; then the callback is
      appended and its mask or-ed in. */
  function Register(reg: Registry, wd: int, cb: Callback): Registry
  {
    var d := if wd in reg then reg[wd] else DescView(0, []);
    reg[wd := DescView(Or(d.mask, cb.mask), d.callbacks + [cb])]
  }

  /** Filing the descriptor a number already has, or an empty one, before
      registering a callback under it changes nothing. */
  lemma RegisterAfterLookup(reg: Registry, wd: int, cb: Callback)
    ensures Register(reg[wd := if wd in reg then reg[wd] else DescView(0, [])], wd, cb) == Register(reg, wd, cb)
  {
  }

  /** The union of the callbacks' masks. */
  function UnionMask(cbs: seq<Callback>): nat
  {
    if cbs == [] then 0 else Or(UnionMask(cbs[..|cbs| - 1]), cbs[|cbs| - 1].mask)
  }

  /** Every descriptor's mask is the union of its callbacks' masks. */
  ghost predicate MasksAreUnions(reg: Registry)
  {
    forall wd :: wd in reg ==> reg[wd].mask == UnionMask(reg[wd].callbacks)
  }

  /** A registration adds `wd` and leaves every other descriptor as it was;
      the callbacks of `wd` gain exactly the new one, at the end. */
  lemma RegisterFrame(reg: Registry, wd: int, cb: Callback)
    ensures Register(reg, wd, cb).Keys == reg.Keys + {wd}
    ensures forall k :: k in reg && k != wd ==> Register(reg, wd, cb)[k] == reg[k]
    ensures Register(reg, wd, cb)[wd].callbacks
         == (if wd in reg then reg[wd].callbacks else []) + [cb]
  { }

  /** Registration keeps each mask the union of its callbacks' masks. */
  lemma RegisterKeepsMasks(reg: Registry, wd: int, cb: Callback)
    requires MasksAreUnions(reg)
    ensures MasksAreUnions(Register(reg, wd, cb))
  {
    var r := Register(reg, wd, cb);
    var cbs := r[wd].callbacks;
    assert cbs[..|cbs| - 1] == if wd in reg then reg[wd].callbacks else [];
    if wd !in reg {
      OrZero(cb.mask);
    }
  }

  /** A descriptor's mask has a bit exactly when one of its callbacks asked
      for it. */
  lemma {:induction false} UnionMaskBits(cbs: seq<Callback>, b: nat)
    ensures HasAny(UnionMask(cbs), b) <==> exists i :: 0 <= i < |cbs| && HasAny(cbs[i].mask, b)
    decreases |cbs|
  {
    if cbs == [] {
      AndZero(b);
    } else {
      var init := cbs[..|cbs| - 1];
      UnionMaskBits(init, b);
      HasAnyOr(UnionMask(init), cbs[|cbs| - 1].mask, b);
      if exists i :: 0 <= i < |cbs| && HasAny(cbs[i].mask, b) {
        var i :| 0 <= i < |cbs| && HasAny(cbs[i].mask, b);
        if i < |init| {
          assert init[i] == cbs[i];
        }
      }
      if exists i :: 0 <= i < |init| && HasAny(init[i].mask, b) {
        var i :| 0 <= i < |init| && HasAny(init[i].mask, b);
        assert cbs[i] == init[i];
      }
    }
  }

  /** `cb` registered under the number `add_watch` gives for `pth` and
      `mask`, if it gives one. */
  function RegisterWatch(reg: Registry, os: Os, pth: string, mask: nat, cb: Callback): Registry
  {
    match os.addWatch(pth, mask)
    case Success(wd) => Register(reg, wd, cb)
    case Failure(_) => reg
  }

  /** The callback that `add_watch` for `l` registers, if it answered. */
  function RegisterLink(reg: Registry, os: Os, w: Watch, l: Link): Registry
  {
    RegisterWatch(reg, os, l.path, l.mask, Callback(l.mask, l.name, w, l))
  }

  /** The callbacks that the links of `w` register, in order. */
  function RegisterLinks(reg: Registry, os: Os, w: Watch, links: seq<Link>): Registry
  {
    if links == [] then reg
    else RegisterLink(RegisterLinks(reg, os, w, links[..|links| - 1]), os, w, links[|links| - 1])
  }

  lemma RegisterLinksSnoc(reg: Registry, os: Os, w: Watch, links: seq<Link>, l: Link)
    ensures RegisterLinks(reg, os, w, links + [l]) == RegisterLink(RegisterLinks(reg, os, w, links), os, w, l)
  {
    assert (links + [l])[..|links|] == links;
  }

  /** Registering the links of a watch keeps every mask the union of its
      callbacks' masks. */
  lemma {:induction false} RegisterLinksKeepMasks(reg: Registry, os: Os, w: Watch, links: seq<Link>)
    requires MasksAreUnions(reg)
    ensures MasksAreUnions(RegisterLinks(reg, os, w, links))
    decreases |links|
  {
    if links != [] {
      var init := RegisterLinks(reg, os, w, links[..|links| - 1]);
      RegisterLinksKeepMasks(reg, os, w, links[..|links| - 1]);
      var l := links[|links| - 1];
      if os.addWatch(l.path, l.mask).Success? {
        RegisterKeepsMasks(init, os.addWatch(l.path, l.mask).value, Callback(l.mask, l.name, w, l));
      }
    }
  }
  /** Registering a watch's links keeps every callback registered before,
      in place and in order; each callback added belongs to that watch. */
  lemma {:induction false} RegisterLinksKeepsCallbacks(reg: Registry, os: Os, w: Watch, links: seq<Link>)
    ensures var r := RegisterLinks(reg, os, w, links);
      && reg.Keys <= r.Keys
      && (forall wd :: wd in reg ==> reg[wd].callbacks <= r[wd].callbacks)
      && (forall wd :: wd in r ==>
            var before := if wd in reg then reg[wd].callbacks else [];
            forall i :: |before| <= i < |r[wd].callbacks| ==> r[wd].callbacks[i].watch == w)
    decreases |links|
  {
    if links != [] {
      var init := RegisterLinks(reg, os, w, links[..|links| - 1]);
      RegisterLinksKeepsCallbacks(reg, os, w, links[..|links| - 1]);
      var l := links[|links| - 1];
      if os.addWatch(l.path, l.mask).Success? {
        RegisterFrame(init, os.addWatch(l.path, l.mask).value, Callback(l.mask, l.name, w, l));
      }
    }
  }


  // ---------------------------------------------------------------------
  // Dispatch (lines 209-211, 275-279, 310-315)

  /** The filter of line 312: the event shares a bit with the callback's
      mask, and the callback has no name filter or the event's name is it. */
  predicate Matches(cb: Callback, evt: RawEvent)
  {
    HasAny(evt.mask, cb.mask) && (cb.name.None? || cb.name == evt.name)
  }

  function WatchesOf(cbs: seq<Callback>): set<Watch>
  {
    set cb | cb in cbs :: cb.watch
  }

  /** What `_Descriptor.handle_event` yields before its removal step: the
      one event of each matching callback, in registration order; the first
      callback that raises ends the generator with its error. */
  function Fire(cbs: seq<Callback>, evt: RawEvent): Result<seq<Event>, ReadError>
    reads WatchesOf(cbs)`links
  {
    if cbs == [] then Success([])
    else
      var init := cbs[..|cbs| - 1];
      var cb := cbs[|cbs| - 1];
      assert WatchesOf(init) <= WatchesOf(cbs) by {
        forall c | c in init ensures c in cbs {
          var i :| 0 <= i < |init| && init[i] == c;
          assert cbs[i] == c;
        }
      }
      match Fire(init, evt)
      case Failure(e) => Failure(e)
      case Success(es) =>
        if Matches(cb, evt) then
          match cb.watch.HandleEvent(evt, cb.link)
          case Failure(e) => Failure(e)
          case Success(x) => Success(es + [x])
        else Success(es)
  }

  /** The callbacks an event is delivered to, in registration order: exactly
      the registered callbacks whose mask shares a bit with the event's
      (`MatchingConcat` gives the order). */
  function Matching(cbs: seq<Callback>, evt: RawEvent): (m: seq<Callback>)
    ensures |m| <= |cbs|
    ensures forall i :: 0 <= i < |m| ==> m[i] in cbs && Matches(m[i], evt)
    ensures forall i :: 0 <= i < |cbs| && Matches(cbs[i], evt) ==> cbs[i] in m
  {
    if cbs == [] then []
    else
      var init := Matching(cbs[..|cbs| - 1], evt);
      assert forall c :: c in cbs[..|cbs| - 1] ==> c in cbs;
      assert forall i :: 0 <= i < |cbs| - 1 ==> cbs[i] == cbs[..|cbs| - 1][i];
      if Matches(cbs[|cbs| - 1], evt) then init + [cbs[|cbs| - 1]] else init
  }

  /** Matching distributes over concatenation: the selection keeps the
      order of registration. */
  lemma {:induction false} MatchingConcat(a: seq<Callback>, b: seq<Callback>, evt: RawEvent)
    ensures Matching(a + b, evt) == Matching(a, evt) + Matching(b, evt)
    decreases |b|
  {
    if b == [] {
      assert a + b == a;
    } else {
      var b0 := b[..|b| - 1];
      assert (a + b)[..|a + b| - 1] == a + b0;
      assert (a + b)[|a + b| - 1] == b[|b| - 1];
      MatchingConcat(a, b0, evt);
    }
  }

  /** When no callback raises, `_Descriptor.handle_event` yields exactly one
      event per matching callback, in registration order, each the one its
      watch makes for the link of that callback. */
  lemma {:induction false} FireDelivers(cbs: seq<Callback>, evt: RawEvent)
    requires Fire(cbs, evt).Success?
    ensures var es := Fire(cbs, evt).value; var m := Matching(cbs, evt);
      && |es| == |m|
      && forall k :: 0 <= k < |es| ==> m[k].watch.HandleEvent(evt, m[k].link) == Success(es[k])
    decreases |cbs|
  {
    if cbs != [] {
      FireDelivers(cbs[..|cbs| - 1], evt);
    }
  }

  /** Delivery to a descriptor fails exactly when a matching callback
      belongs to a watch with an empty path, and the error is then the
      TypeError of `path.join()`. */
  lemma {:induction false} FireFails(cbs: seq<Callback>, evt: RawEvent)
    ensures Fire(cbs, evt).Failure? <==>
      exists i :: 0 <= i < |cbs| && Matches(cbs[i], evt) && cbs[i].watch.path == []
    ensures Fire(cbs, evt).Failure? ==> Fire(cbs, evt).error == EmptyPath
    decreases |cbs|
  {
    if cbs != [] {
      var init := cbs[..|cbs| - 1];
      FireFails(init, evt);
      if exists i :: 0 <= i < |cbs| && Matches(cbs[i], evt) && cbs[i].watch.path == [] {
        var i :| 0 <= i < |cbs| && Matches(cbs[i], evt) && cbs[i].watch.path == [];
        if i < |init| {
          assert init[i] == cbs[i];
        }
      }
      if exists i :: 0 <= i < |init| && Matches(init[i], evt) && init[i].watch.path == [] {
        var i :| 0 <= i < |init| && Matches(init[i], evt) && init[i].watch.path == [];
        assert cbs[i] == init[i];
      }
    }
  }

  /** Once a callback has raised, the later ones change nothing. */
  lemma {:induction false} FireSticky(cbs: seq<Callback>, evt: RawEvent, k: nat)
    requires k <= |cbs| && Fire(cbs[..k], evt).Failure?
    ensures Fire(cbs, evt) == Fire(cbs[..k], evt)
    decreases |cbs| - k
  {
    if k < |cbs| {
      assert cbs[..k + 1][..k] == cbs[..k];
      FireSticky(cbs, evt, k + 1);
    } else {
      assert cbs[..k] == cbs;
    }
  }

  /** The result of `read` before it stores or returns the events: the events
      made so far, the registry left, and the error that ended it, if any. */
  datatype Dispatch = Dispatch(events: seq<Event>, view: Registry, error: Option<ReadError>)

  function WatchesIn(reg: Registry): set<Watch>
  {
    set wd, cb | wd in reg && cb in reg[wd].callbacks :: cb.watch
  }

  /** Line 210 for one raw event: the descriptor of its number yields the
      events of its matching callbacks and, when the event carries
      IN_IGNORED, then leaves the registry; an unknown number raises. */
  function DispatchOne(view: Registry, evt: RawEvent): (r: (Result<seq<Event>, ReadError>, Registry))
    reads WatchesIn(view)`links
    ensures r.0.Failure? ==> r.1 == view
    ensures r.1.Keys <= view.Keys && forall wd :: wd in r.1 ==> r.1[wd] == view[wd]
  {
    if evt.wd !in view then (Failure(UnknownDescriptor(evt.wd)), view)
    else
      assert WatchesOf(view[evt.wd].callbacks) <= WatchesIn(view);
      match Fire(view[evt.wd].callbacks, evt)
      case Failure(e) => (Failure(e), view)
      case Success(es) => (Success(es), if HasAny(evt.mask, IN_IGNORED) then view - {evt.wd} else view)
  }

  /** One more raw event after `d`: nothing is read once an event raised. */
  function DispatchNext(d: Dispatch, evt: RawEvent): (n: Dispatch)
    reads WatchesIn(d.view)`links
    ensures n.view.Keys <= d.view.Keys && forall wd :: wd in n.view ==> n.view[wd] == d.view[wd]
  {
    if d.error.Some? then d
    else
      var (res, view) := DispatchOne(d.view, evt);
      match res
      case Failure(e) => Dispatch(d.events, d.view, Some(e))
      case Success(es) => Dispatch(d.events + es, view, None)
  }

  /** The loop of lines 209-211 over the raw events, one `DispatchNext`
      each. */
  function DispatchAll(reg: Registry, raw: seq<RawEvent>): (d: Dispatch)
    reads WatchesIn(reg)`links
    ensures d.view.Keys <= reg.Keys && forall wd :: wd in d.view ==> d.view[wd] == reg[wd]
    decreases |raw|
  {
    if raw == [] then Dispatch([], reg, None)
    else
      var d := DispatchAll(reg, raw[..|raw| - 1]);
      assert WatchesIn(d.view) <= WatchesIn(reg);
      DispatchNext(d, raw[|raw| - 1])
  }

  lemma DispatchSnoc(reg: Registry, raw: seq<RawEvent>, evt: RawEvent)
    ensures DispatchAll(reg, raw + [evt]) == DispatchNext(DispatchAll(reg, raw), evt)
  {
    assert (raw + [evt])[..|raw|] == raw;
  }

  /** Once an event has raised, the later ones are never read. */
  lemma {:induction false} DispatchSticky(reg: Registry, raw: seq<RawEvent>, k: nat)
    requires k <= |raw| && DispatchAll(reg, raw[..k]).error.Some?
    ensures DispatchAll(reg, raw) == DispatchAll(reg, raw[..k])
    decreases |raw| - k
  {
    if k < |raw| {
      assert raw[..k + 1][..k] == raw[..k];
      DispatchSticky(reg, raw, k + 1);
    } else {
      assert raw[..k] == raw;
    }
  }

  /** One turn of the loop of lines 209-211: after the first `i` events
      dispatched without raising, event `i` either raises, and then so does
      the whole read, or adds its events. */
  lemma DispatchStep(reg: Registry, raw: seq<RawEvent>, i: nat, view: Registry,
                     out: Result<seq<Event>, ReadError>, view': Registry)
    requires i < |raw|
    requires var d := DispatchAll(reg, raw[..i]); d.error.None? && d.view == view
    requires (out, view') == DispatchOne(view, raw[i])
    ensures out.Failure? ==>
      DispatchAll(reg, raw) == Dispatch(DispatchAll(reg, raw[..i]).events, view, Some(out.error))
    ensures out.Success? ==>
      DispatchAll(reg, raw[..i + 1]) == Dispatch(DispatchAll(reg, raw[..i]).events + out.value, view', None)
  {
    assert raw[..i + 1] == raw[..i] + [raw[i]];
    DispatchSnoc(reg, raw[..i], raw[i]);
    if out.Failure? {
      DispatchSticky(reg, raw, i + 1);
    }
  }

  /** A further event after events that did not raise acts on the later
      part alone. */
  lemma NextAfter(da: Dispatch, db: Dispatch, evt: RawEvent)
    requires da.error.None?
    ensures var n := DispatchNext(db, evt);
      DispatchNext(Dispatch(da.events + db.events, db.view, db.error), evt) == Dispatch(da.events + n.events, n.view, n.error)
  {
    if db.error.None? {
      var (res, view) := DispatchOne(db.view, evt);
      if res.Success? {
        assert da.events + db.events + res.value == da.events + (db.events + res.value);
      }
    }
  }

  /** Dispatching `a + b` is dispatching `a` and then, from the registry
      `a` leaves, `b`: the events of `a` come first. */
  lemma {:induction false} DispatchConcat(reg: Registry, a: seq<RawEvent>, b: seq<RawEvent>)
    requires DispatchAll(reg, a).error.None?
    ensures var da := DispatchAll(reg, a); var db := DispatchAll(da.view, b);
      DispatchAll(reg, a + b) == Dispatch(da.events + db.events, db.view, db.error)
    decreases |b|
  {
    var da := DispatchAll(reg, a);
    if b == [] {
      assert a + b == a;
      assert da.events + [] == da.events;
    } else {
      var b', evt := b[..|b| - 1], b[|b| - 1];
      assert b == b' + [evt];
      assert a + b == (a + b') + [evt];
      DispatchSnoc(reg, a + b', evt);
      DispatchSnoc(da.view, b', evt);
      DispatchConcat(reg, a, b');
      NextAfter(da, DispatchAll(da.view, b'), evt);
    }
  }

  /** When no event raises, a descriptor is left exactly when no event for
      its number carried IN_IGNORED. */
  lemma {:induction false} DispatchRemoves(reg: Registry, raw: seq<RawEvent>, wd: int)
    requires DispatchAll(reg, raw).error.None?
    ensures wd in DispatchAll(reg, raw).view <==>
      wd in reg && forall i :: 0 <= i < |raw| && raw[i].wd == wd ==> !HasAny(raw[i].mask, IN_IGNORED)
    decreases |raw|
  {
    if raw != [] {
      var init := raw[..|raw| - 1];
      DispatchRemoves(reg, init, wd);
      forall i | 0 <= i < |init| ensures init[i] == raw[i] { }
    }
  }

  /** An event for a number already removed by an earlier IN_IGNORED in the
      same read makes `read` raise. */
  lemma IgnoredThenUnknown(reg: Registry, raw: seq<RawEvent>, i: nat, j: nat)
    requires i < j < |raw| && raw[i].wd == raw[j].wd && HasAny(raw[i].mask, IN_IGNORED)
    ensures DispatchAll(reg, raw).error.Some?
  {
    var pre := raw[..j];
    var d := DispatchAll(reg, pre);
    if d.error.Some? {
      assert raw[..j + 1][..j] == pre;
      DispatchSticky(reg, raw, j + 1);
    } else {
      assert pre[i] == raw[i];
      DispatchRemoves(reg, pre, raw[j].wd);
      assert raw[..j + 1][..j] == pre;
      DispatchSticky(reg, raw, j + 1);
    }
  }

  /** `read`'s normalisation of its arguments (lines 199-202): a
      non-blocking read asks for 0 bytes, and a blocking one for 0 bytes
      is one that waits (`None`). */
  function NormBufsize(block: bool, bufsize: Option<int>): (r: Option<int>)
    ensures r == Some(0) <==> !block
    ensures block ==> (r.None? <==> bufsize.None? || bufsize == Some(0))
    ensures block && r.Some? ==> r == bufsize
  {
    if !block then Some(0)
    else if bufsize == Some(0) then None
    else bufsize
  }

  // ---------------------------------------------------------------------
  // The objects

  /** `_Watch` (lines 222-279): the normalised path, the user's mask, the
      chain of links and the inode of the leaf. The constructor call to
      `add` (line 230) is made by `Watcher.Add`. */
  class Watch {
    const watcher: Watcher
    const path: seq<string>
    const mask: nat
    var links: seq<Link>
    var inode: Option<Inode>

    constructor (watcher: Watcher, pth: string, mask: nat)
      ensures this.watcher == watcher && path == Normpath(pth) && this.mask == mask
      ensures links == [] && inode == None
    {
      this.watcher := watcher;
      path := Normpath(pth);
      this.mask := mask;
      links := [];
      inode := None;
    }

    /** `handle_event` (lines 275-279) for an event that arrived through
        `link`: exactly one event, addressed at the rejoined path; the raw
        event itself when `link` is the last link and the event shares a bit
        with the user's mask, and otherwise the synthetic link-changed event
        for the same descriptor number. */
    function HandleEvent(evt: RawEvent, link: Link): (r: Result<Event, ReadError>)
      reads this`links
      ensures r.Failure? <==> path == []
      ensures r.Failure? ==> r.error == EmptyPath
      ensures r.Success? ==> JoinAll(path) == Some(r.value.path)
      ensures r.Success? && link.idx == |links| - 1 && HasAny(evt.mask, mask) ==> r.value.raw == evt
      ensures r.Success? && !(link.idx == |links| - 1 && HasAny(evt.mask, mask)) ==>
        && r.value.Mask() == IN_LINK_CHANGED && r.value.Cookie() == 0 && r.value.Name().None?
        && r.value.raw.wd == evt.wd
    {
      match JoinAll(path)
      case None => Failure(EmptyPath)
      case Some(p) =>
        if link.idx == |links| - 1 && HasAny(evt.mask, mask) then Success(Event(evt, p))
        else Success(Event(LinkChangedEvent(evt.wd), p))
    }

    /** `self.links.append(_Link(...))` (lines 266 and 273): the link's
        constructor (lines 285-291) registers it through `_createwatch`, and
        the link is appended only if that did not raise. */
    method AppendLink(os: Os, l: Link) returns (err: Option<Errno>)
      requires watcher.Valid()
      modifies this`links, watcher`descriptors, watcher.descriptors.Values
      ensures watcher.Valid()
      ensures err.Some? <==> os.addWatch(l.path, l.mask).Failure?
      ensures err.Some? ==> err.value == os.addWatch(l.path, l.mask).error
      ensures links == if err.None? then old(links) + [l] else old(links)
      ensures watcher.Registry() == RegisterLink(old(watcher.Registry()), os, this, l)
      ensures inode == old(inode)
      ensures watcher.paths == old(watcher.paths) && watcher.buffer == old(watcher.buffer)
      ensures forall d :: d in watcher.descriptors.Values ==> d in old(watcher.descriptors.Values) || fresh(d)
    {
      var d := watcher.CreateWatch(os, l.path, l.name, l.mask, this, l);
      if d.Failure? {
        return Some(d.error);
      }
      links := links + [l];
      return None;
    }

    /** `addlink` (lines 270-273): registers the directory of `p` for
        changes to the entry named like `p`, and appends that link unless
        `add_watch` raised, whose errno it then returns. */
    method AddLink(os: Os, p: string) returns (err: Option<Errno>)
      requires watcher.Valid()
      modifies this`links, watcher`descriptors, watcher.descriptors.Values
      ensures watcher.Valid()
      ensures err.Some? <==> os.addWatch(os.Dirname(p), SYMLINK_MASK).Failure?
      ensures err.Some? ==>
        && err.value == os.addWatch(os.Dirname(p), SYMLINK_MASK).error
        && links == old(links) && watcher.Registry() == old(watcher.Registry())
      ensures err.None? ==>
        var l := Link(|old(links)|, SYMLINK_MASK, os.Dirname(p), Some(os.split(p).1));
        && links == old(links) + [l]
        && watcher.Registry() == RegisterLink(old(watcher.Registry()), os, this, l)
      ensures inode == old(inode)
      ensures watcher.paths == old(watcher.paths) && watcher.buffer == old(watcher.buffer)
      ensures forall d :: d in watcher.descriptors.Values ==> d in old(watcher.descriptors.Values) || fresh(d)
    {
      var (dir, name) := os.split(p);
      err := AppendLink(os, Link(|links|, SYMLINK_MASK, dir, Some(name)));
    }

    /** `addleaf` (lines 264-268): registers `p` itself with the user's mask
        and self-move and self-delete, appends the leaf, and records the
        inode. Neither `add_watch` nor `stat` is guarded, so both errors
        propagate; one of `stat` leaves the leaf appended. */
    method AddLeaf(os: Os, p: string) returns (outcome: Outcome)
      requires watcher.Valid()
      modifies this`links, this`inode, watcher`descriptors, watcher.descriptors.Values
      ensures watcher.Valid()
      ensures var r := LeafStep(os, mask, p, |old(links)|);
        links == old(links) + r.links && outcome == r.outcome
      ensures watcher.Registry() == RegisterLink(old(watcher.Registry()), os, this, Link(|old(links)|, LeafMask(mask), p, None))
      ensures inode == if outcome.Leaf? then Some(outcome.inode) else old(inode)
      ensures watcher.paths == old(watcher.paths) && watcher.buffer == old(watcher.buffer)
      ensures forall d :: d in watcher.descriptors.Values ==> d in old(watcher.descriptors.Values) || fresh(d)
    {
      var err := AppendLink(os, Link(|links|, LeafMask(mask), p, None));
      if err.Some? {
        return Failed(err.value);
      }
      match os.stat(p)
      case Failure(e) =>
        return Failed(e);
      case Success(st) =>
        inode := Some(st);
        return Leaf(st);
    }

    /** The `while True` loop of `add` (lines 243-249) up to the first
        `OSError`: follows the symlinks from `pth`, one link for each, and
        returns the path, the depth and the errno at which the `try` block
        raised. Together with `Stop` for that errno, the links are the ones
        `Resolve` describes. */
    method FollowLinks(os: Os, pth: string, ghost bound: nat) returns (p: string, depth: nat, e: Errno, ghost b: nat)
      requires ChainEnds(os, pth, bound)
      requires links == []
      requires watcher.Valid()
      modifies this`links, watcher`descriptors, watcher.descriptors.Values
      ensures watcher.Valid()
      ensures ChainEnds(os, p, b)
      ensures var r := Resolve(os, mask, pth, bound); var s := Stop(os, mask, p, depth, |links|, e);
        links + s.links == r.links && s.outcome == r.outcome
      ensures inode == old(inode)
      ensures watcher.Registry() == RegisterLinks(old(watcher.Registry()), os, this, links)
      ensures watcher.paths == old(watcher.paths) && watcher.buffer == old(watcher.buffer)
      ensures forall d :: d in watcher.descriptors.Values ==> d in old(watcher.descriptors.Values) || fresh(d)
    {
      ghost var whole := Resolve(os, mask, pth, bound);
      ghost var reg0 := watcher.Registry();
      p := pth;
      depth := 0;
      b := bound;
      while true
        invariant ChainEnds(os, p, b)
        invariant watcher.Valid()
        invariant var rest := ResolveFrom(os, mask, p, depth, |links|, b);
          links + rest.links == whole.links && rest.outcome == whole.outcome
        invariant inode == old(inode)
        invariant watcher.Registry() == RegisterLinks(reg0, os, this, links)
        invariant watcher.paths == old(watcher.paths) && watcher.buffer == old(watcher.buffer)
        invariant forall d :: d in watcher.descriptors.Values ==> d in old(watcher.descriptors.Values) || fresh(d)
        decreases b
      {
        match os.readlink(p) {
          case Failure(err) =>
            ResolveNotLink(os, mask, p, depth, |links|, b);
            return p, depth, err, b;
          case Success(target) =>
            ghost var before := links;
            var err := AddLink(os, p);
            if err.Some? {
              ResolveLinkRefused(os, mask, p, depth, |before|, b);
              return p, depth, err.value, b;
            }
            AdvanceChain(os, mask, p, depth, before, links, b, whole);
            RegisterLinksSnoc(reg0, os, this, before, links[|links| - 1]);
            p := os.NextPath(p, target);
            depth := depth + 1;
            b := b - 1;
        }
      }
    }

    /** `add` (lines 241-262) on a fresh watch: the `except` branch after
        `FollowLinks` adds the leaf for a path that is not a symlink, gives
        up on a missing entry (an error for the path itself, a dangling watch
        past a symlink) and propagates every other error. */
    method Add(os: Os, pth: string, ghost bound: nat) returns (outcome: Outcome)
      requires ChainEnds(os, pth, bound)
      requires links == [] && inode == None
      requires watcher.Valid()
      modifies this`links, this`inode, watcher`descriptors, watcher.descriptors.Values
      ensures watcher.Valid()
      ensures var r := Resolve(os, mask, pth, bound);
        links == r.links && outcome == r.outcome
      ensures inode == if outcome.Leaf? then Some(outcome.inode) else None
      ensures watcher.Registry() == RegisterLinks(old(watcher.Registry()), os, this, links)
      ensures watcher.paths == old(watcher.paths) && watcher.buffer == old(watcher.buffer)
      ensures forall d :: d in watcher.descriptors.Values ==> d in old(watcher.descriptors.Values) || fresh(d)
    {
      ghost var reg0 := watcher.Registry();
      var p, depth, e, b := FollowLinks(os, pth, bound);
      if e == EINVAL {
        ghost var before := links;
        outcome := AddLeaf(os, p);
        ghost var leaf := Link(|before|, LeafMask(mask), p, None);
        RegisterLinksSnoc(reg0, os, this, before, leaf);
        if links == before {
          assert RegisterLink(RegisterLinks(reg0, os, this, before), os, this, leaf) == RegisterLinks(reg0, os, this, before);
        }
        return;
      }
      if e == ENOENT || e == ENOTDIR {
        if depth == 0 {
          return NotFound(p);
        }
        return Dangling;
      }
      return Failed(e);
    }
  }

  /** A watch that resolved to a dangling symlink still yields raw events:
      one that reaches its last link, a symlink segment, and shares a bit
      with the user's mask comes out as itself, not as a link change. */
  lemma DanglingWatchDeliversRaw(w: Watch, os: Os, pth: string, bound: nat, evt: RawEvent)
    requires ChainEnds(os, pth, bound)
    requires Resolve(os, w.mask, pth, bound).outcome == Dangling && w.links == Resolve(os, w.mask, pth, bound).links
    requires w.path != [] && HasAny(evt.mask, w.mask)
    ensures |w.links| >= 1 && !w.links[|w.links| - 1].IsLeaf()
    ensures w.HandleEvent(evt, w.links[|w.links| - 1]) == Success(Event(evt, JoinAll(w.path).value))
  {
    DanglingEndsAtSegment(os, w.mask, pth, bound);
  }

  /** The leaf is always watched for self-move and self-delete (line 265),
      but line 276 tests the event against the user's mask: when the target
      itself is moved or deleted and the user did not ask for that, the leaf's
      callback fires and the watch reports a link change, not the event. */
  lemma LeafSelfEventIsLinkChange(w: Watch, os: Os, pth: string, bound: nat, evt: RawEvent)
    requires ChainEnds(os, pth, bound)
    requires Resolve(os, w.mask, pth, bound).outcome.Leaf? && w.links == Resolve(os, w.mask, pth, bound).links
    requires w.path != [] && (evt.mask == IN_DELETE_SELF || evt.mask == IN_MOVE_SELF) && !HasAny(evt.mask, w.mask)
    ensures |w.links| >= 1
    ensures var leaf := w.links[|w.links| - 1];
      && leaf.IsLeaf()
      && Matches(Callback(leaf.mask, leaf.name, w, leaf), evt)
      && w.HandleEvent(evt, leaf) == Success(Event(LinkChangedEvent(evt.wd), JoinAll(w.path).value))
  {
    LeafEndsChain(os, w.mask, pth, bound);
    LeafMaskBits(w.mask, evt.mask);
    AndSelf(evt.mask);
    AndComm(LeafMask(w.mask), evt.mask);
  }

  /** An instance of `LeafSelfEventIsLinkChange`: a watch that asks only for
      IN_MODIFY reports the deletion of its target as a link change. */
  lemma ModifyWatchSeesDeleteAsLinkChange(w: Watch, os: Os, pth: string, bound: nat, evt: RawEvent)
    requires ChainEnds(os, pth, bound)
    requires Resolve(os, w.mask, pth, bound).outcome.Leaf? && w.links == Resolve(os, w.mask, pth, bound).links
    requires w.path != [] && w.mask == IN_MODIFY && evt.mask == IN_DELETE_SELF
    ensures |w.links| >= 1
    ensures w.HandleEvent(evt, w.links[|w.links| - 1]).value.Mask() == IN_LINK_CHANGED
  {
    AndBelowPow2(IN_DELETE_SELF, IN_MODIFY);
    LeafSelfEventIsLinkChange(w, os, pth, bound, evt);
  }

  /** `_Descriptor` (lines 298-315): one kernel watch descriptor, the union
      of the masks registered on it, and the callbacks in registration
      order. */
  class Descriptor {
    const watcher: Watcher
    const wd: int
    var mask: nat
    var callbacks: seq<Callback>

    constructor (watcher: Watcher, wd: int)
      ensures this.watcher == watcher && this.wd == wd && mask == 0 && callbacks == []
    {
      this.watcher := watcher;
      this.wd := wd;
      mask := 0;
      callbacks := [];
    }

    function View(): DescView
      reads this`mask, this`callbacks
    {
      DescView(mask, callbacks)
    }

    /** `add_callback` (lines 306-308). */
    method AddCallback(mask: nat, name: Option<string>, watch: Watch, link: Link)
      modifies this`mask, this`callbacks
      ensures this.mask == Or(old(this.mask), mask)
      ensures callbacks == old(callbacks) + [Callback(mask, name, watch, link)]
    {
      this.mask := Or(this.mask, mask);
      callbacks := callbacks + [Callback(mask, name, watch, link)];
    }

    /** `handle_event` (lines 310-315): the events of the matching callbacks,
        in order, and then, for an event with IN_IGNORED, removal of this
        descriptor from the registry. A callback that raises ends it before
        the removal. */
    method HandleEvent(evt: RawEvent) returns (r: Result<seq<Event>, ReadError>)
      requires watcher.Valid() && wd in watcher.descriptors && watcher.descriptors[wd] == this
      modifies watcher`descriptors
      ensures watcher.Valid()
      ensures r == Fire(callbacks, evt)
      ensures watcher.descriptors ==
        if r.Success? && HasAny(evt.mask, IN_IGNORED) then old(watcher.descriptors) - {wd}
        else old(watcher.descriptors)
      ensures watcher.Registry() ==
        if r.Success? && HasAny(evt.mask, IN_IGNORED) then old(watcher.Registry()) - {wd}
        else old(watcher.Registry())
      ensures watcher.paths == old(watcher.paths) && watcher.buffer == old(watcher.buffer)
    {
      var events: seq<Event> := [];
      for i := 0 to |callbacks|
        invariant Fire(callbacks[..i], evt) == Success(events)
        invariant unchanged(watcher)
      {
        assert callbacks[..i + 1][..i] == callbacks[..i];
        var cb := callbacks[i];
        if Matches(cb, evt) {
          var e := cb.watch.HandleEvent(evt, cb.link);
          if e.Failure? {
            FireSticky(callbacks, evt, i + 1);
            return Failure(e.error);
          }
          events := events + [e.value];
        }
      }
      assert callbacks[..|callbacks|] == callbacks;
      if HasAny(evt.mask, IN_IGNORED) {
        watcher.RemoveWatch(this);
        assert unchanged(WatchesOf(callbacks));
      }
      return Success(events);
    }
  }

  /** `Watcher` (lines 165-219): descriptors by number, watches by the path
      they were added under, and events read but not yet returned. The
      inotify file descriptor is not modelled. */
  class Watcher {
    var descriptors: map<int, Descriptor>
    var paths: map<string, Watch>
    var buffer: seq<Event>

    constructor ()
      ensures descriptors == map[] && paths == map[] && buffer == []
      ensures Valid()
    {
      descriptors := map[];
      paths := map[];
      buffer := [];
    }

    /** Each descriptor is filed under its own number and belongs to this
        watcher, and its mask is the union of its callbacks' masks. */
    ghost predicate Valid()
      reads this`descriptors, descriptors.Values`mask, descriptors.Values`callbacks
    {
      && (forall wd :: wd in descriptors ==> descriptors[wd].wd == wd && descriptors[wd].watcher == this)
      && MasksAreUnions(Registry())
    }

    function Registry(): Registry
      reads this`descriptors, descriptors.Values`mask, descriptors.Values`callbacks
    {
      map wd | wd in descriptors :: descriptors[wd].View()
    }

    /** `_createwatch` (lines 179-184): asks the kernel for a descriptor for
        `pth`; a number seen for the first time gets a new descriptor; the
        callback is added to the descriptor of that number. */
    method CreateWatch(os: Os, pth: string, name: Option<string>, mask: nat, watch: Watch, link: Link)
      returns (r: Result<Descriptor, Errno>)
      requires Valid()
      modifies this`descriptors, descriptors.Values
      ensures Valid()
      ensures match os.addWatch(pth, mask)
        case Failure(e) => r == Failure(e) && descriptors == old(descriptors)
        case Success(wd) =>
          && r.Success? && r.value.wd == wd && descriptors == old(descriptors)[wd := r.value]
          && (wd in old(descriptors) ==> r.value == old(descriptors[wd]))
          && (wd !in old(descriptors) ==> fresh(r.value))
      ensures Registry() == RegisterWatch(old(Registry()), os, pth, mask, Callback(mask, name, watch, link))
      ensures paths == old(paths) && buffer == old(buffer)
    {
      var res := os.addWatch(pth, mask);
      if res.Failure? {
        return Failure(res.error);
      }
      var wd := res.value;
      var d := Attach(wd, mask, name, watch, link);
      r := Success(d);
    }

    /** Lines 181-183 for descriptor number `wd`. */
    method Attach(wd: int, mask: nat, name: Option<string>, watch: Watch, link: Link) returns (d: Descriptor)
      requires Valid()
      modifies this`descriptors, descriptors.Values`mask, descriptors.Values`callbacks
      ensures Valid()
      ensures d.wd == wd && descriptors == old(descriptors)[wd := d]
      ensures wd in old(descriptors) ==> d == old(descriptors[wd])
      ensures wd !in old(descriptors) ==> fresh(d)
      ensures Registry() == Register(old(Registry()), wd, Callback(mask, name, watch, link))
      ensures paths == old(paths) && buffer == old(buffer)
    {
      ghost var reg0 := Registry();
      d := DescriptorFor(wd);
      ghost var ds1 := descriptors;
      ghost var reg1 := Registry();
      Extend(d, mask, name, watch, link);
      assert descriptors == ds1;
      RegisterAfterLookup(reg0, wd, Callback(mask, name, watch, link));
    }

    /** Line 183: the callback goes to descriptor `d`, which is filed under
        its number; no other descriptor changes. */
    method Extend(d: Descriptor, mask: nat, name: Option<string>, watch: Watch, link: Link)
      requires Valid() && d.wd in descriptors && descriptors[d.wd] == d
      modifies d`mask, d`callbacks
      ensures Valid()
      ensures Registry() == Register(old(Registry()), d.wd, Callback(mask, name, watch, link))
    {
      ghost var reg0 := Registry();
      var cb := Callback(mask, name, watch, link);
      assert forall k :: k in descriptors && k != d.wd ==> descriptors[k].wd != d.wd;
      d.AddCallback(mask, name, watch, link);
      assert Registry() == reg0[d.wd := DescView(Or(reg0[d.wd].mask, mask), reg0[d.wd].callbacks + [cb])];
      RegisterKeepsMasks(reg0, d.wd, cb);
    }

    /** Lines 181-182: the descriptor filed under `wd`, or a new one, empty,
        filed under it. */
    method DescriptorFor(wd: int) returns (d: Descriptor)
      requires Valid()
      modifies this`descriptors
      ensures Valid()
      ensures d.wd == wd && d.watcher == this && descriptors == old(descriptors)[wd := d]
      ensures wd in old(descriptors) ==> d == old(descriptors[wd])
      ensures wd !in old(descriptors) ==> fresh(d)
      ensures Registry() == old(Registry())[wd := if wd in old(Registry()) then old(Registry())[wd] else DescView(0, [])]
    {
      if wd in descriptors {
        d := descriptors[wd];
        assert descriptors == old(descriptors)[wd := d];
        assert Registry()[wd := Registry()[wd]] == Registry();
        return;
      }
      d := new Descriptor(this, wd);
      descriptors := descriptors[wd := d];
      assert Registry() == old(Registry())[wd := DescView(0, [])];
      assert UnionMask([]) == 0;
    }

    /** `_removewatch` (lines 186-187); the number is registered, as `del`
        would raise otherwise. */
    method RemoveWatch(d: Descriptor)
      requires Valid() && d.wd in descriptors
      modifies this`descriptors
      ensures Valid()
      ensures descriptors == old(descriptors) - {d.wd}
      ensures Registry() == old(Registry()) - {d.wd}
      ensures paths == old(paths) && buffer == old(buffer)
    {
      descriptors := descriptors - {d.wd};
      assert Registry() == old(Registry()) - {d.wd};
    }

    /** `add` (lines 173-177). A path already added raises at line 175 and
        changes nothing. Otherwise it is `AddReplacing`. */
    method Add(os: Os, pth: string, mask: nat, ghost bound: nat) returns (r: Result<Watch, AddError>, ghost w: Watch)
      requires Valid() && (pth !in paths ==> ChainEnds(os, pth, bound))
      modifies this`descriptors, this`paths, descriptors.Values
      ensures Valid()
      ensures pth in old(paths) ==>
        r == Failure(NoUpdateMask) && paths == old(paths) && w == paths[pth] && Registry() == old(Registry())
      ensures pth !in old(paths) ==>
        && fresh(w) && w.watcher == this && w.path == Normpath(pth) && w.mask == mask
        && (var res := Resolve(os, mask, pth, bound);
            && w.links == res.links
            && w.inode == (if res.outcome.Leaf? then Some(res.outcome.inode) else None)
            && r == (match res.outcome
                     case NotFound(p) => Failure(DoesNotExist(p))
                     case Failed(e) => Failure(OsError(e))
                     case Leaf(_) => Success(w)
                     case Dangling => Success(w)))
        && Registry() == RegisterLinks(old(Registry()), os, w, w.links)
        && paths == if r.Success? then old(paths)[pth := w] else old(paths)
      ensures buffer == old(buffer)
    {
      if pth in paths {
        w := paths[pth];
        return Failure(NoUpdateMask), w;
      }
      r, w := AddReplacing(os, pth, mask, bound);
    }

    /** Lines 176-177, which `add` means to reach for every path: a new
        watch for `pth`, resolved as `Resolve` says, is filed under `pth`,
        replacing any watch filed there, unless the resolution raised. By
        `RegisterLinksKeepsCallbacks` the descriptors keep every callback
        registered before, so a replaced watch is still delivered to, and
        each callback added belongs to the new watch. */
    method AddReplacing(os: Os, pth: string, mask: nat, ghost bound: nat) returns (r: Result<Watch, AddError>, ghost w: Watch)
      requires Valid() && ChainEnds(os, pth, bound)
      modifies this`descriptors, this`paths, descriptors.Values
      ensures Valid()
      ensures fresh(w) && w.watcher == this && w.path == Normpath(pth) && w.mask == mask
      ensures var res := Resolve(os, mask, pth, bound);
        && w.links == res.links
        && w.inode == (if res.outcome.Leaf? then Some(res.outcome.inode) else None)
        && r == (match res.outcome
                 case NotFound(p) => Failure(DoesNotExist(p))
                 case Failed(e) => Failure(OsError(e))
                 case Leaf(_) => Success(w)
                 case Dangling => Success(w))
      ensures Registry() == RegisterLinks(old(Registry()), os, w, w.links)
      ensures paths == if r.Success? then old(paths)[pth := w] else old(paths)
      ensures buffer == old(buffer)
    {
      var watch := new Watch(this, pth, mask);
      w := watch;
      var outcome := watch.Add(os, pth, bound);
      r := match outcome
        case NotFound(p) => Failure(DoesNotExist(p))
        case Failed(e) => Failure(OsError(e))
        case Leaf(_) => Success(watch)
        case Dangling => Success(watch);
      if r.Success? {
        ghost var reg1 := Registry();
        paths := paths[pth := watch];
        assert Registry() == reg1;
      }
    }

    /** Line 210 for one raw event: the descriptor of its number handles it,
        as `DispatchOne` says; the `KeyError` of an unknown number is
        `UnknownDescriptor`. */
    method Deliver(evt: RawEvent) returns (r: Result<seq<Event>, ReadError>)
      requires Valid()
      modifies this`descriptors
      ensures Valid()
      ensures (r, Registry()) == DispatchOne(old(Registry()), evt)
      ensures descriptors.Keys <= old(descriptors.Keys)
      ensures forall wd :: wd in descriptors ==> descriptors[wd] == old(descriptors[wd])
    {
      if evt.wd !in descriptors {
        return Failure(UnknownDescriptor(evt.wd));
      }
      var d := descriptors[evt.wd];
      assert d.View() == Registry()[evt.wd];
      r := d.HandleEvent(evt);
    }

    /** The loop of `read` (lines 209-211): each raw event goes to the
        descriptor of its number, in order, as `DispatchAll` says; an unknown
        number or an event that cannot be made raises, and the events made
        so far are lost with it. */
    method DispatchEvents(raw: seq<RawEvent>) returns (r: Result<seq<Event>, ReadError>)
      requires Valid()
      modifies this`descriptors
      ensures Valid()
      ensures paths == old(paths) && buffer == old(buffer)
      ensures var d := DispatchAll(old(Registry()), raw);
        && descriptors.Keys == d.view.Keys
        && (forall wd :: wd in descriptors ==> descriptors[wd] == old(descriptors[wd]))
        && r == if d.error.Some? then Failure(d.error.value) else Success(d.events)
    {
      ghost var reg0 := Registry();
      var events: seq<Event> := [];
      for i := 0 to |raw|
        invariant Valid()
        invariant paths == old(paths) && buffer == old(buffer)
        invariant var d := DispatchAll(reg0, raw[..i]);
          d.error.None? && d.events == events && Registry() == d.view
        invariant descriptors.Keys <= old(descriptors.Keys)
        invariant forall wd :: wd in descriptors ==> descriptors[wd] == old(descriptors[wd])
      {
        assert WatchesIn(Registry()) <= WatchesIn(reg0);
        label pre:
        var out := Deliver(raw[i]);
        assert unchanged@pre(WatchesIn(reg0)`links);
        DispatchStep(reg0, raw, i, old@pre(Registry()), out, Registry());
        if out.Failure? {
          return Failure(out.error);
        }
        events := events + out.value;
      }
      assert raw[..|raw|] == raw;
      return Success(events);
    }

    /** `read` (lines 189-216) with `kernel` standing for `inotify.read` on
        the normalised buffer size. Buffered events are returned first,
        without reading; otherwise an empty registry raises; otherwise every
        raw event is dispatched in order, and the events are returned or,
        with `storeEvents`, buffered. */
    method Read(kernel: Option<int> -> seq<RawEvent>, block: bool, bufsize: Option<int>, storeEvents: bool)
      returns (r: Result<Option<seq<Event>>, ReadError>)
      requires Valid()
      modifies this`descriptors, this`buffer
      ensures Valid()
      ensures paths == old(paths)
      ensures old(buffer) != [] ==>
        r == Success(Some(old(buffer))) && buffer == [] && descriptors == old(descriptors)
      ensures old(buffer) == [] && |old(descriptors)| == 0 ==>
        r == Failure(NoFiles) && buffer == [] && descriptors == old(descriptors)
      ensures old(buffer) == [] && |old(descriptors)| > 0 ==>
        var d := DispatchAll(old(Registry()), kernel(NormBufsize(block, bufsize)));
        && descriptors.Keys == d.view.Keys
        && (forall wd :: wd in descriptors ==> descriptors[wd] == old(descriptors[wd]))
        && r == (if d.error.Some? then Failure(d.error.value)
                 else if storeEvents then Success(None)
                 else Success(Some(d.events)))
        && buffer == (if d.error.None? && storeEvents then d.events else [])
    {
      if buffer != [] {
        r := Success(Some(buffer));
        buffer := [];
        return;
      }
      var size := NormBufsize(block, bufsize);
      if |descriptors| == 0 {
        return Failure(NoFiles);
      }
      var out := DispatchEvents(kernel(size));
      ghost var d := DispatchAll(old(Registry()), kernel(size));
      assert out == if d.error.Some? then Failure(d.error.value) else Success(d.events);
      if out.Failure? {
        return Failure(out.error);
      }
      if storeEvents {
        buffer := buffer + out.value;
        assert buffer == d.events;
        r := Success(None);
      } else {
        r := Success(Some(out.value));
      }
      assert DispatchAll(old(Registry()), kernel(size)) == d;
    }
  }
}
