/**
 Small programs that run into the two failures of the buddy allocators.  Both are about requests of at
 most half the smallest block; here a request for one byte.
 */
module BuddyFailures {
  import opened Powers
  import opened Options
  import opened BuddyGeometry
  import opened BuddySpec
  import opened BlockSets
  import IB = IBuddy
  import BB = BinaryBuddy
  import opened BTBuddyClimb
  import opened BTBuddyModel
  import BT = BTBuddy

  lemma OneByte(cfg: Config)
    requires cfg.Ok()
    ensures 1 <= cfg.SizeOfLevel(cfg.L) && 1 <= cfg.MaxSize() && LevelFor(cfg, 1) == cfg.L - 1
    ensures RoundUpPow2(1) == 1 && cfg.SizeOfLevel(cfg.L - 1) == cfg.MinSize() > 1
  {
    Pow2Mono(0, cfg.minLog2 - 1);
    Pow2Mono(1, cfg.minLog2);
    SizeOfLevelMono(cfg, 0, cfg.L);
    RoundUpBelowBlockSize(cfg, 1);
    FitsUnique(cfg, 1, LevelFor(cfg, 1), cfg.L - 1);
  }

  /** The block of level 0 is the whole region, and a request for the largest size is for that block. */
  lemma WholeBlock(cfg: Config)
    requires cfg.Ok()
    ensures LevelFor(cfg, cfg.MaxSize()) == 0 && cfg.SizeOfLevel(cfg.L) < cfg.MaxSize()
    ensures forall a: nat :: IsBlock(cfg.L, a, 0) ==> Cells(cfg.L, a, 0) == Interval(0, RegionCells(cfg.L))
    ensures IsBlock(cfg.L, 0, 0)
  {
    BlockSizeLevel(cfg, 0);
    SizeOfLevelMono(cfg, 0, cfg.L);
    LevelZero(cfg.L, 0);
    ShlZero(cfg.L - 1);
    forall a: nat | IsBlock(cfg.L, a, 0)
      ensures a == 0
    {
      LevelZero(cfg.L, a);
    }
  }

  /** iBuddy: the whole region is taken, and the next request for a byte reads past the lists. */
  method PopsPastTheLists(cfg: Config) returns (outcome: Outcome<nat>)
    requires cfg.Ok()
    ensures outcome == OutOfBounds
  {
    WholeBlock(cfg);
    OneByte(cfg);
    var region := new IB.Region.Empty(cfg);
    assert Serves(cfg.L, region.free, 0);
    var whole := region.Allocate(cfg.MaxSize());
    outcome := region.Allocate(1);
  }

  /** A free region has a block of every level. */
  lemma FreshServes(cfg: Config, l: nat)
    requires cfg.Ok() && l < cfg.L
    ensures Serves(cfg.L, Interval(0, RegionCells(cfg.L)), l)
  {
    AlignLeftIsBlock(cfg.L, 0, l);
    BlockInside(cfg.L, AlignLeft(cfg.L, 0, l), l);
  }

  /** The binary buddy: taking a block for a byte and returning it leaves more bytes free than the region has. */
  method BinaryBuddyGrows(cfg: Config) returns (freeSize: nat)
    requires cfg.Ok()
    ensures freeSize == cfg.MaxSize() + cfg.MinSize() - 1 > cfg.MaxSize()
  {
    OneByte(cfg);
    AllFree(cfg);
    FreshServes(cfg, cfg.L - 1);
    var region := new BB.Region.Empty(cfg);
    var block := region.Allocate(1);
    region.Deallocate(block.value, cfg.MinSize(), cfg.L - 1);
    freeSize := region.freeSize;
  }

  /** The same for the binary-tree buddy. */
  method BTBuddyGrows(cfg: Config) returns (freeSize: nat)
    requires cfg.HasSplitBits() && cfg.L < 256
    ensures freeSize == cfg.MaxSize() + cfg.MinSize() - 1 > cfg.MaxSize()
  {
    OneByte(cfg);
    AllFree(cfg);
    FreshServes(cfg, cfg.L - 1);
    var region := new BT.Region.Empty(cfg);
    var block := region.Allocate(1);
    region.Deallocate(block.value, cfg.MinSize());
    freeSize := region.freeSize;
  }

  /** The binary-tree buddy: half of a block comes back, and the root then says that the whole region is free. */
  method HalfReturned(cfg: Config) returns (root: nat, ghost free: set<nat>)
    requires cfg.HasSplitBits() && cfg.L < 256
    ensures root == cfg.L && free == Cells(cfg.L, 0, 1)
  {
    WholeBlock(cfg);
    FreshServes(cfg, 0);
    var region := new BT.Region.Empty(cfg);
    var block := region.Allocate(cfg.MaxSize());
    LevelZero(cfg.L, block.value);
    FirstBelow(cfg.L, 0, 0, 1);
    ValuesLow(cfg.L, region.tree.plain, region.live, region.free);
    PartFull(cfg.L, region.NodesNow(), region.live, 0, 1, 0);
    free := region.free + Cells(cfg.L, 0, 1);
    region.DeallocateInternal(0, cfg.SizeOfLevel(1), 1);
    BlockIndexBound(cfg.L, 0, 0);
    root := region.tree.Get(0);
  }
}
