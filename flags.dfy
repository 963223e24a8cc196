/** The inotify flag bits, the synthetic IN_LINK_CHANGED bit derived from
    them, and mask decoding (inotify/newwatcher.py, lines 78-99).

    The binding module that defines the constant table is not part of this
    model; its values are those of the Linux header <sys/inotify.h>. */
module Flags {
  import opened Bits

  const IN_ACCESS: nat        := 0x0000_0001
  const IN_MODIFY: nat        := 0x0000_0002
  const IN_ATTRIB: nat        := 0x0000_0004
  const IN_CLOSE_WRITE: nat   := 0x0000_0008
  const IN_CLOSE_NOWRITE: nat := 0x0000_0010
  const IN_OPEN: nat          := 0x0000_0020
  const IN_MOVED_FROM: nat    := 0x0000_0040
  const IN_MOVED_TO: nat      := 0x0000_0080
  const IN_CREATE: nat        := 0x0000_0100
  const IN_DELETE: nat        := 0x0000_0200
  const IN_DELETE_SELF: nat   := 0x0000_0400
  const IN_MOVE_SELF: nat     := 0x0000_0800
  const IN_UNMOUNT: nat       := 0x0000_2000
  const IN_Q_OVERFLOW: nat    := 0x0000_4000
  const IN_IGNORED: nat       := 0x0000_8000
  const IN_CLOSE: nat         := 0x0000_0018
  const IN_MOVE: nat          := 0x0000_00C0
  const IN_ALL_EVENTS: nat    := 0x0000_0FFF
  const IN_ONLYDIR: nat       := 0x0100_0000
  const IN_DONT_FOLLOW: nat   := 0x0200_0000
  const IN_EXCL_UNLINK: nat   := 0x0400_0000
  const IN_MASK_ADD: nat      := 0x2000_0000
  const IN_ISDIR: nat         := 0x4000_0000
  const IN_ONESHOT: nat       := 0x8000_0000

  /** IN_CLOSE is the union of the two close bits. */
  lemma CloseIsUnion()
    ensures IN_CLOSE == Or(IN_CLOSE_WRITE, IN_CLOSE_NOWRITE)
  {
    AndBelowPow2(IN_CLOSE_NOWRITE, IN_CLOSE_WRITE);
    OrDisjointAdd(IN_CLOSE_WRITE, IN_CLOSE_NOWRITE);
  }

  /** IN_MOVE is the union of the two move bits. */
  lemma MoveIsUnion()
    ensures IN_MOVE == Or(IN_MOVED_FROM, IN_MOVED_TO)
  {
    AndBelowPow2(IN_MOVED_TO, IN_MOVED_FROM);
    OrDisjointAdd(IN_MOVED_FROM, IN_MOVED_TO);
  }

  /** The binding's table of named constants, before IN_LINK_CHANGED is added to it. */
  const BUILTIN_TABLE: seq<(string, nat)> := [
    ("IN_ACCESS", IN_ACCESS), ("IN_MODIFY", IN_MODIFY), ("IN_ATTRIB", IN_ATTRIB),
    ("IN_CLOSE_WRITE", IN_CLOSE_WRITE), ("IN_CLOSE_NOWRITE", IN_CLOSE_NOWRITE),
    ("IN_OPEN", IN_OPEN), ("IN_MOVED_FROM", IN_MOVED_FROM), ("IN_MOVED_TO", IN_MOVED_TO),
    ("IN_CREATE", IN_CREATE), ("IN_DELETE", IN_DELETE), ("IN_DELETE_SELF", IN_DELETE_SELF),
    ("IN_MOVE_SELF", IN_MOVE_SELF), ("IN_UNMOUNT", IN_UNMOUNT), ("IN_Q_OVERFLOW", IN_Q_OVERFLOW),
    ("IN_IGNORED", IN_IGNORED), ("IN_CLOSE", IN_CLOSE), ("IN_MOVE", IN_MOVE),
    ("IN_ALL_EVENTS", IN_ALL_EVENTS), ("IN_ONLYDIR", IN_ONLYDIR), ("IN_DONT_FOLLOW", IN_DONT_FOLLOW),
    ("IN_EXCL_UNLINK", IN_EXCL_UNLINK), ("IN_MASK_ADD", IN_MASK_ADD), ("IN_ISDIR", IN_ISDIR),
    ("IN_ONESHOT", IN_ONESHOT)
  ]

  /** `functools.reduce(operator.or_, values)`, folded from the left. */
  function OrAll(table: seq<(string, nat)>): nat
  {
    if table == [] then 0 else Or(OrAll(table[..|table| - 1]), table[|table| - 1].1)
  }

  /** `inotify_builtin_constants` */
  const BUILTIN_CONSTANTS: nat := OrAll(BUILTIN_TABLE)

  /** Every value of the table is covered by the OR of the table. */
  lemma {:induction false} OrAllUpper(table: seq<(string, nat)>, i: nat)
    requires i < |table|
    ensures table[i].1 <= OrAll(table)
    decreases |table|
  {
    var init := table[..|table| - 1];
    OrUpper(OrAll(init), table[|table| - 1].1);
    if i < |table| - 1 {
      assert init[i] == table[i];
      OrAllUpper(init, i);
    }
  }

  /** One odd value makes the OR of the table odd. */
  lemma {:induction false} OrAllOdd(table: seq<(string, nat)>, i: nat)
    requires i < |table| && table[i].1 % 2 == 1
    ensures OrAll(table) % 2 == 1
    decreases |table|
  {
    var init := table[..|table| - 1];
    if i < |table| - 1 {
      assert init[i] == table[i];
      OrAllOdd(init, i);
    }
  }

  /** The first power of two, doubling from `p`, that is not less than `bound`. */
  function LeastPow2From(p: nat, bound: nat): nat
    requires IsPow2(p)
    decreases bound - p
  {
    if p >= bound then p else LeastPow2From(2 * p, bound)
  }

  /** The value the loop at lines 81-83 leaves in `IN_LINK_CHANGED`. */
  function LinkChangedBit(builtin: nat): nat
  {
    LeastPow2From(1, builtin)
  }

  /** `LeastPow2From` is a power of two, not below `bound`, and the least such one
      above `p`: halving it falls below `bound` unless it is `p` itself. */
  lemma {:induction false} LeastPow2FromSpec(p: nat, bound: nat)
    requires IsPow2(p)
    requires p == 1 || p / 2 < bound
    ensures var r := LeastPow2From(p, bound);
      IsPow2(r) && bound <= r && (r == 1 || r / 2 < bound) && p <= r
    decreases bound - p
  {
    if p < bound {
      assert IsPow2(2 * p);
      LeastPow2FromSpec(2 * p, bound);
    }
  }

  /** The synthetic bit is the least power of two that is not less than
      the OR of the builtin constants. */
  lemma LinkChangedBitSpec(builtin: nat)
    ensures var r := LinkChangedBit(builtin);
      IsPow2(r) && builtin <= r && (r == 1 || r / 2 < builtin)
  {
    LeastPow2FromSpec(1, builtin);
  }

  /** When the synthetic bit is strictly above the builtin OR, it shares no bit
      with any value the OR covers. */
  lemma LinkChangedDisjoint(builtin: nat, c: nat)
    requires c <= builtin < LinkChangedBit(builtin)
    ensures And(LinkChangedBit(builtin), c) == 0 && And(c, LinkChangedBit(builtin)) == 0
  {
    LinkChangedBitSpec(builtin);
    AndBelowPow2(LinkChangedBit(builtin), c);
  }

  /** Lines 81-83: start at 1 and shift left until the value reaches the builtin OR. */
  method ComputeLinkChanged(builtin: nat) returns (bit: nat)
    ensures IsPow2(bit) && builtin <= bit && (bit == 1 || bit / 2 < builtin)
    ensures bit == LinkChangedBit(builtin)
  {
    bit := 1;
    while bit < builtin
      invariant IsPow2(bit)
      invariant bit == 1 || bit / 2 < builtin
      invariant LeastPow2From(bit, builtin) == LinkChangedBit(builtin)
      decreases builtin - bit
    {
      assert IsPow2(2 * bit);
      bit := bit * 2;
    }
  }

  /** `inotify.IN_LINK_CHANGED`, fixed once from the builtin table. */
  const IN_LINK_CHANGED: nat := LinkChangedBit(BUILTIN_CONSTANTS)

  /** With the Linux table the synthetic bit lies strictly above every builtin
      bit: the table holds IN_ACCESS == 1, so its OR is odd and greater than
      one, hence not itself a power of two. */
  lemma LinkChangedAboveBuiltin()
    ensures IsPow2(IN_LINK_CHANGED)
    ensures BUILTIN_CONSTANTS < IN_LINK_CHANGED
    ensures And(IN_LINK_CHANGED, BUILTIN_CONSTANTS) == 0
  {
    LinkChangedBitSpec(BUILTIN_CONSTANTS);
    OrAllOdd(BUILTIN_TABLE, 0);
    OrAllUpper(BUILTIN_TABLE, 23);
    OddIsNotPow2(BUILTIN_CONSTANTS);
    LinkChangedDisjoint(BUILTIN_CONSTANTS, BUILTIN_CONSTANTS);
  }

  const LINK_CHANGED_NAME: string := "IN_LINK_CHANGED"

  /** `decode_mask` (lines 86-90). `kernelDecode` is the binding's own
      `inotify.decode_mask`, which this model leaves uninterpreted. */
  function DecodeMask(kernelDecode: nat -> seq<string>, mask: nat): (names: seq<string>)
    ensures var builtinNames := kernelDecode(And(mask, BUILTIN_CONSTANTS));
      && |builtinNames| <= |names|
      && names[..|builtinNames|] == builtinNames
      && (HasAny(mask, IN_LINK_CHANGED) <==> |names| == |builtinNames| + 1)
      && (HasAny(mask, IN_LINK_CHANGED) ==> names[|names| - 1] == LINK_CHANGED_NAME)
      && (!HasAny(mask, IN_LINK_CHANGED) ==> names == builtinNames)
  {
    kernelDecode(And(mask, BUILTIN_CONSTANTS))
      + (if HasAny(mask, IN_LINK_CHANGED) then [LINK_CHANGED_NAME] else [])
  }

  /** A mask holding only the synthetic bit decodes to the kernel's decoding of
      no bits, followed by the synthetic name. */
  lemma DecodeOnlyLinkChanged(kernelDecode: nat -> seq<string>)
    ensures DecodeMask(kernelDecode, IN_LINK_CHANGED) == kernelDecode(0) + [LINK_CHANGED_NAME]
  {
    LinkChangedAboveBuiltin();
    AndSelf(IN_LINK_CHANGED);
  }

  /** Setting the synthetic bit on any mask appends the synthetic name to the
      kernel decoding of the mask's builtin bits, which is unaffected. */
  lemma DecodeWithLinkChanged(kernelDecode: nat -> seq<string>, mask: nat)
    ensures DecodeMask(kernelDecode, Or(mask, IN_LINK_CHANGED))
         == kernelDecode(And(mask, BUILTIN_CONSTANTS)) + [LINK_CHANGED_NAME]
  {
    LinkChangedAboveBuiltin();
    AndOrDistrib(mask, IN_LINK_CHANGED, BUILTIN_CONSTANTS);
    OrZero(And(mask, BUILTIN_CONSTANTS));
    AndSelf(IN_LINK_CHANGED);
    HasAnyOr(mask, IN_LINK_CHANGED, IN_LINK_CHANGED);
  }

  /** A mask below the synthetic bit decodes to exactly the kernel decoding. */
  lemma DecodeWithoutLinkChanged(kernelDecode: nat -> seq<string>, mask: nat)
    requires mask < IN_LINK_CHANGED
    ensures DecodeMask(kernelDecode, mask) == kernelDecode(And(mask, BUILTIN_CONSTANTS))
  {
    LinkChangedAboveBuiltin();
    AndBelowPow2(IN_LINK_CHANGED, mask);
  }

  /** The flags an Event answers for (lines 43-67, 158-159). */
  datatype Flag =
    | Access | Modify | Attrib | Close | CloseWrite | CloseNowrite | Open
    | Move | MovedFrom | MovedTo | Create | Delete | DeleteSelf | MoveSelf
    | LinkChanged | Unmount | QOverflow | Ignored | IsDir

  /** `constants['IN_' + name.upper()]` for each flag. */
  function FlagBits(f: Flag): nat
  {
    match f
    case Access => IN_ACCESS
    case Modify => IN_MODIFY
    case Attrib => IN_ATTRIB
    case Close => IN_CLOSE
    case CloseWrite => IN_CLOSE_WRITE
    case CloseNowrite => IN_CLOSE_NOWRITE
    case Open => IN_OPEN
    case Move => IN_MOVE
    case MovedFrom => IN_MOVED_FROM
    case MovedTo => IN_MOVED_TO
    case Create => IN_CREATE
    case Delete => IN_DELETE
    case DeleteSelf => IN_DELETE_SELF
    case MoveSelf => IN_MOVE_SELF
    case LinkChanged => IN_LINK_CHANGED
    case Unmount => IN_UNMOUNT
    case QOverflow => IN_Q_OVERFLOW
    case Ignored => IN_IGNORED
    case IsDir => IN_ISDIR
  }

  /** Every flag but the synthetic one is covered by the builtin OR, so none of
      them overlaps the synthetic bit. */
  lemma BuiltinFlagDisjoint(f: Flag)
    requires f != LinkChanged
    ensures FlagBits(f) <= BUILTIN_CONSTANTS
    ensures And(IN_LINK_CHANGED, FlagBits(f)) == 0
  {
    var i: nat := match f
      case Access => 0 case Modify => 1 case Attrib => 2 case CloseWrite => 3
      case CloseNowrite => 4 case Open => 5 case MovedFrom => 6 case MovedTo => 7
      case Create => 8 case Delete => 9 case DeleteSelf => 10 case MoveSelf => 11
      case Unmount => 12 case QOverflow => 13 case Ignored => 14 case Close => 15
      case Move => 16 case IsDir => 22;
    assert BUILTIN_TABLE[i].1 == FlagBits(f);
    OrAllUpper(BUILTIN_TABLE, i);
    LinkChangedAboveBuiltin();
    LinkChangedDisjoint(BUILTIN_CONSTANTS, FlagBits(f));
  }
}
