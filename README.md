# A verified model of `inotify/newwatcher.py`

`newwatcher.py` is a layer over Linux inotify. The user asks to watch a
path. The layer follows the symbolic links on the way to that path and
watches each link's directory. It watches the entry at the end of the chain
as a leaf. It keeps one kernel watch descriptor per descriptor number, even
when several watches share it. Each raw kernel event is sent to the
callbacks registered on that descriptor. A callback passes the event on
as it is when the callback belongs to the last link of its watch and the
event shares a bit with the mask the user asked for. Otherwise it turns the
event into a synthetic "link changed" event.

The model is split into modules, one per concern:

| file | module | what of the source it models |
|---|---|---|
| `wrappers.dfy` | `Wrappers` | `Option` and `Result` |
| `bits.dfy` | `Bits` | Python's `&` and `\|` on non-negative integers, and facts about powers of two |
| `flags.dfy` | `Flags` | the flag table of the binding, the computation of `IN_LINK_CHANGED` (lines 80-84), `decode_mask` (86-90) and the flags the generated getters test (94-99, 158-159) |
| `events.dfy` | `Events` | raw events, `semirawevent` (282), `Event` and `fullpath` (105-146) |
| `paths.dfy` | `Paths` | `_normpath` (232-233), `path.join(*components)` (277, 279), and `posixpath.split`/`join` as the source relies on them |
| `resolution.dfy` | `Resolution` | the symlink-following loop of `_Watch.add`, `addlink` and `addleaf` (241-273), as a function of the file system's answers |
| `watcher.dfy` | `NewWatcher` | the classes `_Watch`, `_Descriptor` and `Watcher` (165-315) as Dafny classes, proved against specification functions over a value view of the registry |

The file system and the kernel are parameters:
- `Resolution.Os` carries `readlink`, `add_watch`, `stat`, `path.split` and
  the join of line 248. `readlink`, `add_watch` and `stat` answer or fail
  with an errno. `split` and the join are total and never fail.
- `Watcher.Read` gets `inotify.read` as a function from buffer size to raw
  events.
- `Flags.DecodeMask` gets the binding's `decode_mask` as a function.

A Python mask is a `nat`. `&` and `|` are defined bit by bit. The constants
are those of Linux `<sys/inotify.h>`.

The registry is specified as a value: `NewWatcher.Registry` maps each
descriptor number to its mask and its callbacks. The registration functions
(`Register`, `RegisterLinks`) and the dispatch functions (`Fire`,
`DispatchOne`, `DispatchAll`) act on that value. Each method of the
classes is proved to change the real objects exactly as those functions
say. Lemmas prove the properties of the functions.

Some behaviour of the code is easy to misread. The model states it as the
code has it:
- The synthetic bit is the least power of two that is *at least* the OR of
  the builtin constants: the loop at line 82 runs while the bit is `<`
  that OR. For the Linux table the OR is odd and greater than 1, so it is not
  a power of two. The bit is therefore strictly greater and shares no bit
  with any builtin flag (`Flags.LinkChangedAboveBuiltin`).
- Adding a path a second time raises at line 175, because `_Watch` has no
  `update_mask`. Nothing changes (`NewWatcher.Watcher.Add`). See
  "## Findings".
- For a dangling symlink the chain ends at its last segment (the comment at
  line 258). `handle_event` (line 276) only compares the link's `idx` with
  the last index and the event with the user's mask. So an event on that
  segment that shares a bit with the user's mask comes out as a real event
  (`NewWatcher.DanglingWatchDeliversRaw`).
- The leaf is watched for `IN_MOVE_SELF` and `IN_DELETE_SELF` as well as
  the user's mask (line 265). Line 276 tests the event against the user's
  mask alone. So moving or deleting the watched entry itself comes out as a
  link-changed event unless the user asked for that flag. Deleting the
  target of `L -> R` gives a real event only when the user's mask holds
  `IN_DELETE_SELF` (`NewWatcher.LeafSelfEventIsLinkChange`, and
  `NewWatcher.ModifyWatchSeesDeleteAsLinkChange` for a mask of `IN_MODIFY`
  alone).
- Line 248 calls `os.join`, which does not exist. The model reads it as
  `path.join(path.dirname(pth), link)`. Lines 251 and 254 use `os.errno`,
  which Python 3.7 and later no longer provide. The model uses the errno
  numbers: EINVAL 22, ENOENT 2, ENOTDIR 20.
- `NoFilesException` (206) and `InotifyWatcherException` (257) are never
  defined. They are the error values `NoFiles` and `DoesNotExist`.
- `path.join(*self.path)` (277, 279) drops a leading `/`
  (`Paths.RejoinedNormpath`). It raises for a path with no component. That
  case is the error `EmptyPath`.
- A raw event for a descriptor number that is not registered raises a
  `KeyError` at line 210. This includes a number removed by an earlier
  `IN_IGNORED` in the same read. That case is the error
  `UnknownDescriptor`.

## Model

| member | source | states |
|---|---|---|
| Flags.ComputeLinkChanged | inotify/newwatcher.py:81-83 | the doubling loop ends at a power of two that is not below the OR of the builtin constants, and whose half is below it |
| Flags.LinkChangedBitSpec | inotify/newwatcher.py:81-83 | the bit computed for any OR is the least power of two not below it |
| Flags.LinkChangedDisjoint | inotify/newwatcher.py:80-83 | when the bit is strictly above a value that is at most the OR, the bit and the value share no bit |
| Flags.LinkChangedAboveBuiltin | inotify/newwatcher.py:80-84 | `IN_LINK_CHANGED` is a power of two, strictly greater than the OR of the table, and shares no bit with that OR |
| Flags.OrAllUpper | inotify/newwatcher.py:80 | every value of the table is at most their OR |
| Flags.OrAllOdd | inotify/newwatcher.py:80 | the OR of a table holding an odd value is odd |
| Flags.BuiltinFlagDisjoint | inotify/newwatcher.py:80-84 | every builtin flag lies within the OR and shares no bit with `IN_LINK_CHANGED` |
| Flags.DecodeMask | inotify/newwatcher.py:86-90 | the names start with the kernel's decoding of the builtin bits; exactly one more name follows, `IN_LINK_CHANGED`, exactly when that bit is set |
| Flags.DecodeOnlyLinkChanged | inotify/newwatcher.py:86-90 | the synthetic bit alone decodes to the kernel's decoding of 0 and the synthetic name |
| Flags.DecodeWithLinkChanged | inotify/newwatcher.py:86-90 | setting the synthetic bit on any mask appends the synthetic name and leaves the kernel's part unchanged |
| Flags.DecodeWithoutLinkChanged | inotify/newwatcher.py:86-90 | a mask below the synthetic bit decodes like the kernel decodes it |
| Events.LinkChangedEvent | inotify/newwatcher.py:279 | the synthetic event keeps the descriptor number, has cookie 0 and no name, carries `IN_LINK_CHANGED` and no builtin bit |
| Events.Event.FullPath | inotify/newwatcher.py:136-139 | without a name, or with an empty one, the path itself; otherwise the components of the path followed by those of the name |
| Events.Event.Get | inotify/newwatcher.py:94-99 | a getter's value lies within the flag's bits and the mask; for a one-bit flag it is that bit when the mask has it and 0 otherwise |
| Events.GetClose | inotify/newwatcher.py:94-99 | `close` answers true exactly when `close_write` or `close_nowrite` does |
| Events.GetMove | inotify/newwatcher.py:94-99 | `move` answers true exactly when `moved_from` or `moved_to` does |
| Events.SyntheticEventFlags | inotify/newwatcher.py:158-159 | the synthetic event answers true for `link_changed` and for no other flag |
| Paths.SplitAt | inotify/newwatcher.py:233 | `str.split` yields at least one part, and no part holds the separator |
| Paths.JoinSplit | inotify/newwatcher.py:233 | joining the parts of a split with the separator gives the string back |
| Paths.SplitJoin | inotify/newwatcher.py:233 | splitting a join of separator-free parts gives the parts back |
| Paths.Clean | inotify/newwatcher.py:233 | the filter keeps no `''` or `'.'`, and only elements of its input |
| Paths.CleanConcat | inotify/newwatcher.py:233 | the filter of a concatenation is the concatenation of the filters, so order is kept |
| Paths.CleanOfComponents | inotify/newwatcher.py:233 | parts that are all components pass the filter unchanged |
| Paths.Normpath | inotify/newwatcher.py:232-233 | every element is a non-empty component other than `.` with no separator |
| Paths.NormpathEmpty | inotify/newwatcher.py:232-233 | the empty path has no component |
| Paths.NormpathConcat | inotify/newwatcher.py:232-233 | the components of `a/b` are those of `a` followed by those of `b` |
| Paths.NormpathOfJoin | inotify/newwatcher.py:232-233 | normalising components joined with `/` gives the components back |
| Paths.JoinAll | inotify/newwatcher.py:277 | `path.join(*parts)` fails exactly when there is no part |
| Paths.JoinAllComponents | inotify/newwatcher.py:277 | joining components gives their `/`-join, which neither starts nor ends with `/` |
| Paths.RejoinedNormpath | inotify/newwatcher.py:225 | the rejoined path of a watch has the same components as the requested path and never starts with `/` |
| Paths.JoinNormpath | inotify/newwatcher.py:138 | `path.join(a, b)` has the components of `b` when `b` is absolute, else those of `a` then `b` |
| Paths.PosixSplitSpec | inotify/newwatcher.py:271 | the tail of `path.split` holds no separator, ends the path and starts right after its last separator (or at its start); the head is a prefix of the rest |
| Paths.SplitKeepsComponents | inotify/newwatcher.py:271 | the components of head and tail together are those of the path |
| Paths.SplitHeadComponents | inotify/newwatcher.py:271 | the head has the components of the path up to its last separator |
| Resolution.LeafMask | inotify/newwatcher.py:265 | the leaf mask always holds `IN_MOVE_SELF` and `IN_DELETE_SELF` |
| Resolution.SymlinkMaskValue | inotify/newwatcher.py:272 | the segment mask is `IN_MOVE \| IN_DELETE \| IN_CREATE \| IN_ONLYDIR` |
| Resolution.LeafMaskBits | inotify/newwatcher.py:265 | the leaf mask shares a bit with `b` exactly when the user's mask or one of the two self flags does |
| Resolution.SegmentKeepsPath | inotify/newwatcher.py:270-271 | a symlink segment's directory and entry name together have the components of the link's path |
| Resolution.NextPathComponents | inotify/newwatcher.py:248 | the next path is the target when it is absolute, else the symlink's directory followed by the target |
| Resolution.AdvanceChain | inotify/newwatcher.py:246-249 | following a symlink keeps the links made so far plus the ones still to come equal to the whole resolution |
| Resolution.StopShape | inotify/newwatcher.py:250-268 | a leaf outcome appends one leaf link; a dangling one appends nothing and is deeper than 0; not-found appends nothing and is at depth 0 |
| Resolution.ResolveWellShaped | inotify/newwatcher.py:241-273 | the indices are consecutive from the first, only the last link can be the leaf, the leaf has the leaf mask and every segment the symlink mask |
| Resolution.ResolveShape | inotify/newwatcher.py:241-273 | a leaf outcome ends in the leaf; a dangling one has only segments; not-found appends nothing |
| Resolution.ChainEndsAfter | inotify/newwatcher.py:244-249 | after `n` symlinks the rest of the chain still ends, with the bound lowered by `n` |
| Resolution.ResolveThroughChain | inotify/newwatcher.py:244-249 | after `n` symlinks the resolution is `n` segments followed by the resolution from the path reached |
| Resolution.ChainLinks | inotify/newwatcher.py:246-249 | the first `n` links are the segments of the `n` symlinks: index, symlink mask, directory and entry name |
| Resolution.ResolveToEntry | inotify/newwatcher.py:241-273 | through `n` symlinks to an entry that is not a link: `n + 1` links with indices `0..n`, the segments then the leaf with the leaf mask and no name, and that entry's inode |
| Resolution.ResolveToMissing | inotify/newwatcher.py:254-259 | a missing entry: not-found when it is the requested path itself; otherwise it ends normally with only the `n` segments |
| Resolution.ResolveOtherError | inotify/newwatcher.py:260 | any other errno propagates, after the `n` segments |
| Resolution.LeafEndsChain | inotify/newwatcher.py:264-266 | a resolution that found its target ends with the leaf link, with the last index and the leaf mask |
| Resolution.DanglingEndsAtSegment | inotify/newwatcher.py:256-259 | a dangling resolution has at least one link, and its last link is a segment with the last index and the symlink mask |
| NewWatcher.RegisterFrame | inotify/newwatcher.py:179-184 | registration adds the number, leaves every other descriptor as it was, and appends exactly the new callback |
| NewWatcher.RegisterKeepsMasks | inotify/newwatcher.py:181-183 | registration keeps every descriptor's mask the union of its callbacks' masks |
| NewWatcher.UnionMaskBits | inotify/newwatcher.py:306-308 | a descriptor's mask has a bit exactly when one of its callbacks asked for it |
| NewWatcher.RegisterLinksKeepsCallbacks | inotify/newwatcher.py:176-184 | registering a watch's links keeps every earlier callback in place and in order, and every callback added belongs to that watch |
| NewWatcher.RegisterLinksKeepMasks | inotify/newwatcher.py:285-292 | registering any chain of links keeps the masks the unions of the callbacks' masks |
| NewWatcher.Matching | inotify/newwatcher.py:311-312 | the callbacks an event reaches are exactly the descriptor's callbacks that match the event's mask and name |
| NewWatcher.MatchingConcat | inotify/newwatcher.py:311-312 | the selection of `a + b` is that of `a` followed by that of `b`, so registration order is kept |
| NewWatcher.FireDelivers | inotify/newwatcher.py:310-313 | without an error, one event per matching callback, in registration order, each the one its watch makes for that link |
| NewWatcher.FireFails | inotify/newwatcher.py:310-313 | delivery fails exactly when a matching callback belongs to a watch with an empty path, and the error is `EmptyPath` |
| NewWatcher.FireSticky | inotify/newwatcher.py:311-313 | after a callback raised, the later ones change nothing |
| NewWatcher.DispatchOne | inotify/newwatcher.py:210 | an event leaves the registry unchanged when it raises and only removes descriptors otherwise |
| NewWatcher.DispatchNext | inotify/newwatcher.py:209-211 | one more event only removes descriptors |
| NewWatcher.DispatchAll | inotify/newwatcher.py:209-211 | the registry left by a read is a part of the registry it started with |
| NewWatcher.DispatchSticky | inotify/newwatcher.py:209-211 | after an event raised, no later event is read |
| NewWatcher.DispatchStep | inotify/newwatcher.py:209-211 | one turn of the loop either ends the read with the event's error or appends the event's output to the events so far |
| NewWatcher.DispatchConcat | inotify/newwatcher.py:209-211 | dispatching `a + b` is dispatching `a` and then `b` from the registry `a` left, with `a`'s events first |
| NewWatcher.DispatchRemoves | inotify/newwatcher.py:314-315 | without an error, a descriptor is left exactly when no event for its number carried `IN_IGNORED` |
| NewWatcher.IgnoredThenUnknown | inotify/newwatcher.py:210 | an event for a number that an earlier event of the same read removed with `IN_IGNORED` makes the read raise |
| NewWatcher.NormBufsize | inotify/newwatcher.py:200-203 | a non-blocking read asks for 0 bytes and only it does; a blocking read for 0 bytes, or for none given, waits; any other size is kept |
| NewWatcher.DanglingWatchDeliversRaw | inotify/newwatcher.py:275-277 | a watch resolved to a dangling symlink yields, for its last link, the raw event itself when the event shares a bit with the user's mask |
| NewWatcher.LeafSelfEventIsLinkChange | inotify/newwatcher.py:265-279 | moving or deleting the resolved entry itself, when the user's mask lacks that flag, reaches the leaf's callback and comes out as a link-changed event |
| NewWatcher.ModifyWatchSeesDeleteAsLinkChange | inotify/newwatcher.py:265-279 | a watch asking only for `IN_MODIFY` reports the deletion of its resolved entry as a link-changed event |
| NewWatcher.Watch.constructor | inotify/newwatcher.py:223-229 | a watch holds its watcher, its normalised path and its mask, with no link and no inode |
| NewWatcher.Watch.HandleEvent | inotify/newwatcher.py:275-279 | exactly one event at the rejoined path: the raw event when the link is the last and the event shares a bit with the user's mask, otherwise the synthetic event for the same number; the error of an empty path |
| NewWatcher.Watch.AppendLink | inotify/newwatcher.py:285-292 | the link is registered through `_createwatch` and appended only when `add_watch` answered; otherwise its errno is returned |
| NewWatcher.Watch.AddLink | inotify/newwatcher.py:270-273 | the segment watches the symlink's directory for the entry's name with the symlink mask, and is appended unless `add_watch` raised |
| NewWatcher.Watch.AddLeaf | inotify/newwatcher.py:264-268 | the leaf is registered and appended, then stat; the inode is set only when `stat` answers, and either error propagates |
| NewWatcher.Watch.FollowLinks | inotify/newwatcher.py:243-260 | the loop appends the links `Resolve` describes up to the errno that stopped it, and registers exactly those links |
| NewWatcher.Watch.Add | inotify/newwatcher.py:241-262 | the links and the outcome are those of `Resolve`; the inode is set exactly for a leaf; the registry gains exactly the callbacks of the links |
| NewWatcher.Descriptor.constructor | inotify/newwatcher.py:300-304 | a new descriptor has mask 0 and no callback |
| NewWatcher.Descriptor.AddCallback | inotify/newwatcher.py:306-308 | the mask is or-ed in and exactly one callback is appended |
| NewWatcher.Descriptor.HandleEvent | inotify/newwatcher.py:310-315 | the callbacks run in order as `Fire` says; the descriptor leaves the registry exactly when the event carries `IN_IGNORED` and no callback raised |
| NewWatcher.Watcher.constructor | inotify/newwatcher.py:167-171 | a watcher starts with no descriptor, no path and an empty buffer |
| NewWatcher.Watcher.CreateWatch | inotify/newwatcher.py:179-184 | on an `add_watch` error nothing changes; otherwise the descriptor of the number, new only for a new number, gains the callback and no other descriptor changes |
| NewWatcher.Watcher.DescriptorFor | inotify/newwatcher.py:181-182 | the descriptor filed under the number, or a fresh empty one filed under it |
| NewWatcher.Watcher.Extend | inotify/newwatcher.py:183 | the descriptor gains the callback as `Register` says and the masks stay unions |
| NewWatcher.Watcher.Attach | inotify/newwatcher.py:181-184 | lookup or creation and then registration of the callback under the number |
| NewWatcher.Watcher.RemoveWatch | inotify/newwatcher.py:186-187 | the descriptor's number leaves the registry and nothing else changes |
| NewWatcher.Watcher.Add | inotify/newwatcher.py:173-177 | a path already added raises and changes nothing; otherwise as `AddReplacing` |
| NewWatcher.Watcher.AddReplacing | inotify/newwatcher.py:176-177 | a fresh watch resolved as `Resolve` says is filed under the path, replacing any watch filed there, unless resolution raised; the registry gains exactly the callbacks of its links |
| NewWatcher.Watcher.Deliver | inotify/newwatcher.py:210 | one raw event changes the registry and yields output exactly as `DispatchOne` says |
| NewWatcher.Watcher.DispatchEvents | inotify/newwatcher.py:208-211 | the loop yields the events and leaves the registry exactly as `DispatchAll` says |
| NewWatcher.Watcher.Read | inotify/newwatcher.py:189-216 | a non-empty buffer is returned and emptied without reading; otherwise an empty registry raises; otherwise the raw events are dispatched in order and the events returned or, with `store_events`, buffered |

The specification functions have no row of their own. Their properties are
stated by the rows above:
- `Bits.And`, `Bits.Or` and `Bits.HasAny` are Python's `&`, `|` and the
  truth of `&` (lines 80, 87, 88, 96, 265, 272, 276, 307, 312, 314). See the
  Bits lemmas used by the rows, e.g. UnionMaskBits, LeafMaskBits and
  Events.Event.Get.
- `Flags.OrAll` is the `reduce(operator.or_, ...)` of line 80. See OrAllUpper
  and OrAllOdd.
- `Flags.LeastPow2From` and `Flags.LinkChangedBit` are the doubling loop of
  lines 81-83. See ComputeLinkChanged, whose contract is stated with them,
  and LinkChangedBitSpec.
- `Flags.FlagBits` is `constants['IN_' + name.upper()]` of line 95. See
  Events.Event.Get, GetClose and GetMove.
- `Paths.JoinLeft` is the fold inside `path.join(*parts)` at lines 277 and
  279. See JoinAll and JoinAllComponents.
- `NewWatcher.UnionMask` is the mask `self.mask` accumulates at lines
  306-308. See UnionMaskBits and RegisterKeepsMasks.
- `Resolution.ResolveFrom` and `Resolution.Resolve` model the loop of lines
  243-262. `Resolution.Stop` models its `except` branch (250-260) and
  `Resolution.LeafStep` models `addleaf` (264-268). See ResolveToEntry,
  ResolveToMissing, ResolveOtherError, ResolveThroughChain, ChainLinks,
  ResolveWellShaped, ResolveShape, StopShape, LeafEndsChain and
  DanglingEndsAtSegment.
- `NewWatcher.Register`, `RegisterWatch`, `RegisterLink` and
  `RegisterLinks` model `_createwatch` and `add_callback` (179-184,
  306-308) and the registration of each link (285-292). See RegisterFrame,
  RegisterKeepsMasks, UnionMaskBits, RegisterLinksKeepMasks and
  RegisterLinksKeepsCallbacks.
- `NewWatcher.Matches` models the test of line 312. `NewWatcher.Fire`
  models the loop of lines 310-313. See Matching, MatchingConcat,
  FireDelivers, FireFails and FireSticky.
- `Paths.PosixSplit` and `Paths.PosixJoin` model `posixpath.split` and
  `posixpath.join` as lines 248, 271, 277 and 279 use them. See
  PosixSplitSpec, SplitKeepsComponents, SplitHeadComponents and
  JoinNormpath.

## Left out

- The OS calls (`os.readlink`, `os.stat`, `inotify.add_watch`) are
  parameters (`Resolution.Os`). So are `inotify.read` and the binding's
  `decode_mask`. The model does not describe what the kernel does.
- `inotify.init`, the file descriptor and `close` (lines 168, 218-219)
  only pass a handle to the kernel.
- Blocking and the timing of `inotify.read` are not modelled. Only the
  normalisation of the buffer size is (lines 199-203).
- The constants come from the C binding, which is not part of this model.
  The table used is that of Linux `<sys/inotify.h>`.
- The patching of `inotify` and `constants` at lines 81 and 84 is left
  out. `IN_LINK_CHANGED` is a constant derived from the table.
- `Event.__repr__` (148-155) is string formatting on Python's `repr`.
- The `setattr` loop (158-159) that installs the getters is left out. It
  is modelled as the `Flag` enumeration and `Event.Get`.
- The documentation tables `_inotify_props`, `_event_props` and
  `_watch_props` (43-75) hold text only.
- `cwd` and `_nonrel` (226, 235-239) are never used.
- `_Link.wd` (292) is never read, so the model does not keep it. The
  callback `_Link.handle_event` (294-295) is the pair of its watch and its
  link inside `NewWatcher.Callback`.
- The generators are modelled as the sequences they yield. A callback
  that raises ends the read, and the events made before it are lost, as in
  the source.
- NewWatcher.Watcher.Add requires (`ChainEnds`), for a path not yet added,
  that the loop at lines 241-262 stop within a ghost bound. A path already
  added raises at line 175 and needs nothing. It stops at an entry that is not a
  readable symlink, or at a symlink whose directory cannot be watched. On a
  symlink cycle whose segments all register, the source never returns. The
  model does not describe that case. The same holds for
  NewWatcher.Watcher.AddReplacing, NewWatcher.Watch.Add and
  NewWatcher.Watch.FollowLinks.
- Resolution.NextPathComponents and Resolution.SegmentKeepsPath assume
  (`PosixPaths`) that the path functions of the `Os` value behave as
  `posixpath.split` and `posixpath.join`. The other lemmas hold for any path
  functions.
- Events.Event.FullPath: the contract says nothing about a name that
  starts with `/`, for which `path.join` returns the name. The kernel never
  sends such a name.
- The source's `os.join` at line 248 would raise `AttributeError`. The
  model follows `path.join` instead, as the surrounding code intends.
- On Python 3.7 and later, `os.errno` at lines 251 and 254 would also raise
  `AttributeError` whenever an `OSError` reaches them. The model compares
  the errno with the numbers of the `errno` module instead, as intended.

## Findings

| source | as written | input that shows it | evidently intended | confidence | as-written member | corrected member |
|---|---|---|---|---|---|---|
| inotify/newwatcher.py:175 | a path already in the map calls `update_mask`, which `_Watch` does not define, so `add` raises `AttributeError` before line 176 | `add(p, m)` a second time for the same `p` | line 176 runs for every path: a new watch replaces the entry and the old watch keeps its callbacks. What `update_mask` was to do to the old watch is unknown, so the corrected member leaves it as it is | not executed | NewWatcher.Watcher.Add | NewWatcher.Watcher.AddReplacing |
