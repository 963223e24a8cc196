/** Raw inotify events and the derived `Event` (inotify/newwatcher.py:105-159, 282). */
module Events {
  import opened Wrappers
  import opened Bits
  import opened Flags
  import opened Paths

  /** One record of `inotify.read`, and also `semirawevent` (line 282), which
      has the same four fields. A name is `None` when the kernel sent none. */
  datatype RawEvent = RawEvent(wd: int, mask: nat, cookie: nat, name: Option<string>)

  /** The synthetic event of line 279. */
  function LinkChangedEvent(wd: int): (e: RawEvent)
    ensures e.wd == wd && e.cookie == 0 && e.name.None?
    ensures HasAny(e.mask, IN_LINK_CHANGED) && And(e.mask, BUILTIN_CONSTANTS) == 0
  {
    LinkChangedAboveBuiltin();
    AndSelf(IN_LINK_CHANGED);
    RawEvent(wd, IN_LINK_CHANGED, 0, None)
  }

  /** `Event(raw, path)`: mask, cookie and name are those of `raw`. */
  datatype Event = Event(raw: RawEvent, path: string) {

    function Mask(): nat { raw.mask }

    function Cookie(): nat { raw.cookie }

    function Name(): Option<string> { raw.name }

    /** `fullpath` (lines 136-139): the path, joined with the name when the
        name is a non-empty string. */
    function FullPath(): (r: string)
      ensures raw.name.None? || raw.name.value == "" ==> r == path
      ensures raw.name.Some? && raw.name.value != "" && raw.name.value[0] != SEP ==>
                Normpath(r) == Normpath(path) + Normpath(raw.name.value)
    {
      if raw.name.Some? && raw.name.value != "" then
        JoinNormpath(path, raw.name.value);
        PosixJoin(path, raw.name.value)
      else path
    }

    /** The getter generated for flag `f` (lines 94-99, 158-159): `mask & bits`.
        For a single-bit flag it yields that bit when the mask has it, else 0. */
    function Get(f: Flag): (bits: nat)
      ensures bits <= FlagBits(f) && bits <= raw.mask
      ensures IsPow2(FlagBits(f)) ==>
                bits == if (raw.mask / FlagBits(f)) % 2 == 1 then FlagBits(f) else 0
    {
      AndUpper(raw.mask, FlagBits(f));
      if IsPow2(FlagBits(f)) then AndPow2(raw.mask, FlagBits(f)); And(raw.mask, FlagBits(f))
      else And(raw.mask, FlagBits(f))
    }
  }

  /** The synthetic event answers true for `link_changed` and for no other flag. */
  lemma SyntheticEventFlags(wd: int, path: string, f: Flag)
    ensures (Event(LinkChangedEvent(wd), path).Get(f) != 0) <==> f == LinkChanged
  {
    if f == LinkChanged {
      LinkChangedAboveBuiltin();
      AndSelf(IN_LINK_CHANGED);
    } else {
      BuiltinFlagDisjoint(f);
    }
  }

  /** The `close` getter answers exactly when `close_write` or `close_nowrite` does. */
  lemma GetClose(e: Event)
    ensures e.Get(Close) != 0 <==> e.Get(CloseWrite) != 0 || e.Get(CloseNowrite) != 0
  {
    CloseIsUnion();
    UnionGetter(e.raw.mask, IN_CLOSE_WRITE, IN_CLOSE_NOWRITE);
  }

  /** The `move` getter answers exactly when `moved_from` or `moved_to` does. */
  lemma GetMove(e: Event)
    ensures e.Get(Move) != 0 <==> e.Get(MovedFrom) != 0 || e.Get(MovedTo) != 0
  {
    MoveIsUnion();
    UnionGetter(e.raw.mask, IN_MOVED_FROM, IN_MOVED_TO);
  }

  /** Masking with a union shares a bit exactly when masking with one part does. */
  lemma UnionGetter(m: nat, a: nat, b: nat)
    ensures And(m, Or(a, b)) != 0 <==> And(m, a) != 0 || And(m, b) != 0
  {
    AndComm(m, Or(a, b));
    AndComm(m, a);
    AndComm(m, b);
    HasAnyOr(a, b, m);
  }
}
