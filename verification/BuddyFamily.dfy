/** The virtual calls of the base class: one of the three subclasses answers them. */
module BuddyFamily {
  import opened Powers
  import opened Options
  import opened BuddyGeometry
  import opened BuddySpec
  import opened BlockSets
  import opened SplitBits
  import opened BinarySplitBits
  import IB = IBuddy
  import BB = BinaryBuddy
  import BT = BTBuddy

  /** What the regions have free together. */
  method Total(sizes: seq<nat>) returns (total: nat)
    ensures total == Sum(sizes)
  {
    total := 0;
    var i := 0;
    assert sizes[0..] == sizes;
    while i < |sizes|
      invariant i <= |sizes|
      invariant total + Sum(sizes[i..]) == Sum(sizes)
    {
      assert sizes[i..][1..] == sizes[i + 1..];
      total := total + sizes[i];
      i := i + 1;
    }
  }

  datatype Subclass =
    | IBuddy(i: IB.IBuddyAllocator)
    | BinaryBuddy(b: BB.BinaryBuddyAllocator)
    | BTBuddy(t: BT.BTBuddyAllocator)
  {
    function Config(): Config {
      match this
      case IBuddy(i) => i.cfg
      case BinaryBuddy(b) => b.cfg
      case BTBuddy(t) => t.cfg
    }

    function Regions(): nat {
      match this
      case IBuddy(i) => |i.regions|
      case BinaryBuddy(b) => |b.regions|
      case BTBuddy(t) => |t.regions|
    }

    /** The objects that the subclass consists of. */
    ghost function Objects(): set<object> {
      match this
      case IBuddy(i) => {i} + i.repr
      case BinaryBuddy(b) => {b} + b.repr
      case BTBuddy(t) => {t} + t.repr
    }

    ghost function Books(): Books
      reads Objects()
    {
      match this
      case IBuddy(i) => i.books
      case BinaryBuddy(b) => b.books
      case BTBuddy(t) => t.books
    }

    /** Every block so far has come back whole. */
    ghost predicate Valid()
      reads Objects()
    {
      match this
      case IBuddy(i) => i.Valid()
      case BinaryBuddy(b) => b.Valid() && b.tracked
      case BTBuddy(t) => t.Valid()
    }

    /** The accounts of the regions. */
    method FreeSizes() returns (sizes: seq<nat>)
      requires Valid()
      ensures sizes == Books().sizes
    {
      match this {
        case IBuddy(i) =>
          sizes := seq(|i.regions|, r requires 0 <= r < |i.regions| reads i.regions => i.regions[r].freeSize);
        case BinaryBuddy(b) =>
          sizes := seq(|b.regions|, r requires 0 <= r < |b.regions| reads b.regions => b.regions[r].freeSize);
        case BTBuddy(t) =>
          sizes := seq(|t.regions|, r requires 0 <= r < |t.regions| reads t.regions => t.regions[r].freeSize);
      }
    }

    /** What an allocation takes out of the free size. */
    function Charge(): Charge {
      if IBuddy? then ByBlock else ByRequest
    }

    /** `allocate_internal`. */
    method AllocateInternal(size: nat) returns (result: Outcome<Block>)
      requires Config().Ok() && Valid() && size <= Config().MaxSize()
      modifies Objects()
      ensures Valid() && old(Books()).Cover(|old(Books()).free|)
      ensures result.OutOfBounds? <==> Overruns(Config(), Charge(), old(Books()).free, size)
      ensures result.OutOfBounds? ==> Books() == old(Books())
      ensures result.Answer? ==>
        && Booked(Config(), Charge(), old(Books()), Books(), size, result.block)
        && Taken(Config().L, old(Books()).free, Books().free, LevelFor(Config(), size), result.block)
    {
      ghost var pre := Books();
      match this {
        case IBuddy(i) =>
          result := i.AllocateInternal(size);
        case BinaryBuddy(b) =>
          var block := b.AllocateInternal(size);
          result := Answer(block);
        case BTBuddy(t) =>
          var block := t.AllocateInternal(size);
          result := Answer(block);
      }
      if result.Answer? {
        BookedIsTaken(Config(), Charge(), pre, Books(), size, result.block);
      }
    }

    /** `deallocate_internal`, of a whole block in use. */
    method DeallocateInternal(b: Block, size: nat, ghost l: nat)
      requires Config().Ok() && Valid() && Books().Cover(Regions()) && b.region < Regions()
      requires IsBlock(Config().L, b.start, l) && size == Config().SizeOfLevel(l)
      requires HasBlock(Books().held[b.region], b.start, l)
      requires forall d: nat :: d in Cells(Config().L, b.start, l) ==> d !in Books().free[b.region]
      modifies Objects()
      ensures Valid() && Unbooked(Config(), old(Books()), Books(), b, l)
    {
      match this {
        case IBuddy(i) => i.DeallocateInternal(b, size, l);
        case BinaryBuddy(a) => a.DeallocateInternal(b, size, l);
        case BTBuddy(t) => t.DeallocateInternal(b, size, l);
      }
    }

    /** Whether the split bits tell the level of a block; iBuddy never clears them. */
    predicate TellsLevels() {
      !IBuddy? && Config().HasSplitBits()
    }

    /** The split bits of a region. */
    ghost function SplitBits(r: nat): seq<bool>
      requires Valid() && TellsLevels() && r < Regions()
      reads Objects()
    {
      match this
      case BinaryBuddy(b) => b.regions[r].split
      case BTBuddy(t) => t.regions[r].split
    }

    /** A split bit is set exactly when a block in use lies strictly below. */
    lemma SplitBitsRight(r: nat)
      requires Valid() && TellsLevels() && r < Regions() && Books().Cover(Regions())
      requires LiveSet(Config().L, Books().held[r])
      requires FreeCells(Config().L, Books().held[r], Books().free[r])
      ensures SplitIs(Config().L, SplitBits(r), Books().held[r])
    {
      match this
      case BinaryBuddy(b) =>
        var region := b.regions[r];
        SplitByHeld(region.cfg.L, region.split, region.links.where, region.held, region.free);
      case BTBuddy(t) =>
    }

    /** `get_level` without a size. */
    method GetLevel(b: Block) returns (level: nat)
      requires Valid() && TellsLevels() && Books().Cover(Regions()) && b.region < Regions()
      requires b.start in Books().held[b.region]
      ensures level == Books().held[b.region][b.start]
    {
      match this {
        case BinaryBuddy(a) => level := a.GetLevel(b);
        case BTBuddy(t) => level := t.GetLevel(b);
      }
    }
  }
}
