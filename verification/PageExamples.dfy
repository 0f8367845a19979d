/** Inputs on which a mapping does not do what it might be expected to, each by a
    sequence of calls. */
module PageExamples {
  import opened Words
  import opened ArenaAllocator
  import opened PageEntries
  import opened PageTree
  import opened AddressMap
  import opened PageBlocks
  import opened PageNeeds
  import opened Paging
  import opened RangePlans
  import opened ElfImage
  import opened Processor
  import opened PageRights
  import opened KernelPlans
  import opened KernelViews
  import opened KernelTables

  /** One page, at the physical address 2^52. */
  function HighPage(): Range { Range(0, 0x10_0000_0000_0000, 4096, 0, false) }

  lemma HighPageIsAccepted()
    ensures Accepted(HighPage()) && OneHalf(HighPage())
  {
    hide Canonical;
    CanonicalHalves(0);
    CanonicalHalves(4095);
  }

  lemma HighPageTables()
    ensures TablesFor(HighPage()) == 3
  {
  }

  /** paging_map takes it, and maps address 0 to physical address 0. */
  method MapTooHigh() returns (m: seq<u64>, m': seq<u64>, root: int)
    ensures Accepted(HighPage()) && OneHalf(HighPage()) && MapsPrefix(m, m', root, HighPage(), HighPage().bytes)
    ensures Translation(m', root, 0).Some? && Translation(m', root, 0).value.physical == 0 != HighPage().physical
  {
    hide Tight, MapsPrefix, AddedWithin, Walk, LevelAt, LeafFlags, FlagsAccepted, Canonical, TablesFor;
    hide OneHalf, Unmapped, OutsideKept, Grown, AlignUp, OffsetIn, AllPlain, Obeyed, ReachedAsAsked, AccessesKept;
    HighPageIsAccepted();
    HighPageTables();
    var ram := new u64[8192](_ => 0);
    var arena := new Arena(0x1000, 0x8000);
    var tables := new PageTables(ram, arena);
    AlignUpIsLeast(0x1000, 4096, 0x1000);
    var ok := tables.Create(arena, false);
    AlignUpIsLeast(0x2000, 4096, 0x2000);
    m := ram[..];
    root := tables.root;
    EmptyIsUnmapped(m, root, HighPage());
    ok := tables.Map(0, 0x10_0000_0000_0000, 4096, 0);
    m' := ram[..];
    CanonicalHalves(0);
    MappedRange(m, m', root, HighPage(), 4096, 0);
  }

  /** Where nothing is mapped no range is. */
  lemma EmptyIsUnmapped(m: seq<u64>, root: int, r: Range)
    requires forall w: u64 :: Walk(m, root, LEVEL_ROOT, w) == None
    ensures Unmapped(m, root, r)
  {
  }

  // ----- tables left over -----

  /** A page of 4 KiB, and a page of a gigabyte around it. */
  function SmallPage(): Range { Range(0, 0, 0x1000, 0, true) }

  function HugePage(): Range { Range(0, 0, 0x4000_0000, 0, true) }

  lemma NoFlags()
    ensures FlagsAccepted(0)
  {
  }

  lemma SmallIsAccepted()
    ensures Accepted(SmallPage()) && OneHalf(SmallPage())
  {
    hide Canonical, FlagsAccepted;
    NoFlags();
    CanonicalHalves(0);
    CanonicalHalves(0xFFF);
  }

  lemma HugeIsAccepted()
    ensures Accepted(HugePage()) && OneHalf(HugePage())
  {
    hide Canonical, FlagsAccepted;
    NoFlags();
    CanonicalHalves(0);
    CanonicalHalves(0x3FFF_FFFF);
  }

  lemma HugePageIsOne()
    ensures LevelAt(true, 0, 0, 0x4000_0000, 0) == LEVEL_POINTER
  {
  }

  /** The tables of the small page. */
  function SmallPath(): set<Node> {
    {Node(LEVEL_TABLE, 0), Node(LEVEL_DIRECTORY, 0), Node(LEVEL_POINTER, 0)}
  }

  lemma SmallPageNeeds(n: Node)
    ensures Needed(SmallPage(), n) <==> n in SmallPath()
  {
    hide Accepted, OneHalf, Needed, Nodes, NeededAt;
    SmallIsAccepted();
    SmallPageNodes();
    if Needed(SmallPage(), n) {
      NeededIsCounted(SmallPage(), n);
    }
    if n in SmallPath() {
      NeededFirst(n);
    }
  }

  lemma SmallPageNodes()
    ensures Nodes(SmallPage()) == SmallPath()
  {
    hide NodesFrom;
    OneNode(LEVEL_DIRECTORY);
    OneNode(LEVEL_POINTER);
  }

  lemma OneNode(level: Level)
    ensures NodesFrom(level, 0, 0) == {Node(level, 0)}
  {
    InNodesFrom(Node(level, 0), 0, 0);
  }

  lemma NeededFirst(n: Node)
    requires n in SmallPath()
    ensures Needed(SmallPage(), n)
  {
    assert NeededAt(SmallPage(), n, 0);
  }

  /** Three pages hold the root and two tables, and a mapping that needs three is left
      with two. */
  lemma ThreePagesAreSpent(used: int, used': int, after: set<Node>, mapped: bool)
    requires 0x1000 + used == 0x2000 && 0 <= used' <= 0x3000
    requires Grown(0x1000, used, used', {Node(LEVEL_ROOT, 0)}, after)
    requires forall n :: n in after && n != Node(LEVEL_ROOT, 0) ==> n in SmallPath()
    requires mapped ==> forall n :: n in SmallPath() ==> n in after
    requires !mapped ==> AlignUp(0x1000 + used', 4096) + 4096 > 0x4000
    ensures !mapped && (Node(LEVEL_TABLE, 0) in after || Node(LEVEL_DIRECTORY, 0) in after)
  {
    hide AlignUp;
    AlignUpIsLeast(0x2000, 4096, 0x2000);
    AlignUpBounds(0x2000, 4096);
    AlignedStays(0x2000, |after| - 1);
    var root, added := {Node(LEVEL_ROOT, 0)}, after - {Node(LEVEL_ROOT, 0)};
    assert |root| == 1 && |SmallPath()| == 3 && |{Node(LEVEL_POINTER, 0)}| == 1;
    MoreNodes(root, after);
    var common, top := SmallPath() * added, {Node(LEVEL_POINTER, 0)} * added;
    MoreNodes(common, added);
    MoreNodes(top, {Node(LEVEL_POINTER, 0)});
    assert mapped ==> common == SmallPath();
    assert Node(LEVEL_TABLE, 0) !in after && Node(LEVEL_DIRECTORY, 0) !in after ==> added == top;
  }

  lemma SmallPageIsRefused(used: int, used': int, after: set<Node>, mapped: bool)
    requires 0x1000 + used == 0x2000 && 0 <= used' <= 0x3000
    requires Grown(0x1000, used, used', {Node(LEVEL_ROOT, 0)}, after)
    requires AddedWithin(SmallPage(), {Node(LEVEL_ROOT, 0)}, after)
    requires mapped ==> forall n :: Needed(SmallPage(), n) ==> n in after
    requires !mapped ==> AlignUp(0x1000 + used', 4096) + 4096 > 0x4000
    ensures !mapped && (Node(LEVEL_TABLE, 0) in after || Node(LEVEL_DIRECTORY, 0) in after)
  {
    hide AlignUp, Grown, Needed, TablesFor, SmallTables;
    forall n
      ensures Needed(SmallPage(), n) <==> n in SmallPath()
    {
      SmallPageNeeds(n);
    }
    ThreePagesAreSpent(used, used', after, mapped);
  }

  /** A small or a middle table at address 0 is in the way of a huge page there. */
  lemma LowTableBlocks(m: seq<u64>, root: int, tables: Tables)
    requires Reached(m, root, tables)
    requires Node(LEVEL_TABLE, 0) in tables.Values || Node(LEVEL_DIRECTORY, 0) in tables.Values
    ensures Blocked(m, root, LEVEL_ROOT, 0, LEVEL_POINTER)
  {
    hide Reached, Blocked;
    if Node(LEVEL_TABLE, 0) in tables.Values {
      NodeBlocks(m, root, tables, Node(LEVEL_TABLE, 0));
    } else {
      NodeBlocks(m, root, tables, Node(LEVEL_DIRECTORY, 0));
    }
  }

  lemma NodeBlocks(m: seq<u64>, root: int, tables: Tables, n: Node)
    requires Reached(m, root, tables) && n in tables.Values && n.prefix == 0 && n.level < LEVEL_POINTER
    ensures Blocked(m, root, LEVEL_ROOT, 0, LEVEL_POINTER)
  {
    hide TableAt, Blocked;
    forall t | t in tables
      ensures TableAt(m, root, LEVEL_ROOT, 0, n.level) == None ==> tables[t] != n
    {
      assert Serves(tables, t, 0) <==> tables[t].prefix == Slot(0, tables[t].level + 1);
    }
    TableBlocks(m, root, LEVEL_ROOT, 0, n.level, LEVEL_POINTER);
  }

  /** A mapping that is refused before its first page changes no translation. */
  lemma RefusedMapsNothing(m: seq<u64>, m': seq<u64>, root: int, r: Range, done: int)
    requires FlagsAccepted(r.flags) && MapsPrefix(m, m', root, r, done) && 0 <= done < 4096 && done % 4096 == 0
    requires forall w: u64 :: Walk(m, root, LEVEL_ROOT, w) == None
    ensures forall w: u64 :: Walk(m', root, LEVEL_ROOT, w) == None
  {
    hide Walk, Expected, OffsetIn, PageOffset;
    forall w: u64
      ensures Walk(m', root, LEVEL_ROOT, w) == None
    {
      assert View(m, root, w) == None && View(m', root, w) == View(m, root, w);
    }
  }

  /** An arena of three pages, and nothing mapped: the small page needs a fourth and is
      refused, and the tables made for it then stand in the way of the huge page, which
      needs none but the first of them. */
  method TableInTheWay() returns (first: bool, second: bool, m: seq<u64>, root: int)
    ensures !first && !second
    ensures Unmapped(m, root, HugePage()) && !Tight(m, root) && Blocked(m, root, LEVEL_ROOT, 0, LEVEL_POINTER)
  {
    hide Tight, MapsPrefix, Walk, LevelAt, FlagsAccepted, Canonical, TablesFor, SmallTables, OneHalf, Unmapped, Blocked;
    hide OutsideKept, AlignUp, OffsetIn, Needed, Grown, Tree, Reached, AllPlain, Obeyed, ReachedAsAsked, AccessesKept;
    hide AddedWithin;
    SmallIsAccepted();
    HugeIsAccepted();
    HugePageIsOne();
    var ram := new u64[2048](_ => 0);
    var arena := new Arena(0x1000, 0x3000);
    var tables := new PageTables(ram, arena);
    AlignUpIsLeast(0x1000, 4096, 0x1000);
    AlignUpBounds(0x1000, 4096);
    var ok := tables.Create(arena, true);
    root := tables.root;
    ghost var begin, used := ram[..], arena.used;
    EmptyIsUnmapped(begin, root, SmallPage());
    first := tables.Map(0, 0, 0x1000, 0);
    m := ram[..];
    SmallPageIsRefused(used, arena.used, tables.tables.Values, first);
    LowTableBlocks(m, root, tables.tables);
    ghost var done :| tables.StoppedAt(begin, SmallPage(), done);
    RefusedMapsNothing(begin, m, root, SmallPage(), done);
    EmptyTableIsLoose(m, root, 0, LEVEL_POINTER);
    EmptyIsUnmapped(m, root, HugePage());
    second := tables.Map(0, 0, 0x4000_0000, 0);
  }

  // ----- a segment that is not at its own bytes -----

  /** Code where it is loaded, and data linked elsewhere, half a page out of step. */
  function CodeSegment(): Segment { Segment(0x1000, 0x20_0000, 0x20_0000, 0x1000, 0x1000, 5) }

  function DataSegment(): Segment { Segment(0x2000, 0x80_0000_0800, 0x30_0000, 0x10, 0x10, 6) }

  function SkewedImage(): Image { Image(0x20_0000, [CodeSegment(), DataSegment()], 0x20_0000, 0x30_0010) }

  lemma SkewedIsMappable()
    ensures AllSound(SkewedImage().segments) && Mappable(SkewedImage())
  {
    var image := SkewedImage();
    assert Distance(image) == 0;
    assert forall s :: s in image.segments && Elsewhere(s) ==> s == DataSegment();
    assert !Elsewhere(image.segments[0]);
    forall w: u64 | Meets(DataSegment(), w)
      ensures w >= 0x1_0000_0000
    {
    }
  }

  lemma DataTables(inStep: bool)
    ensures TablesSpanned(0x80_0000_0800, 0x80_0000_080F, inStep) == 3
  {
  }

  lemma SkewedTables()
    ensures TablesForImage(SkewedImage()) == 10
  {
    hide TablesSpanned;
    var segments := SkewedImage().segments;
    DataTables(DataSegment().virtualAddress % 0x20_0000 == DataSegment().physicalAddress % 0x20_0000);
    assert segments[..1] == [CodeSegment()] && [CodeSegment()][..0] == [];
    assert SegmentTables([CodeSegment()]) == 0;
    assert SegmentTables(segments) == 3;
  }

  /** build_kernel_tables succeeds, and the data is found half a page away from where
      it was loaded. */
  method SegmentOutOfStep() returns (m: seq<u64>, root: int)
    ensures var s := DataSegment();
      && s in SkewedImage().segments && s.Sound() && CodeSegment().Sound()
      && KernelSees(m, root, SkewedImage(), true, false)
      && Reaches(Features(true, false), m, root, s.virtualAddress).Some?
      && Reaches(Features(true, false), m, root, s.virtualAddress).value.physical != s.physicalAddress
  {
    hide Means, PlanFits, TablesForPlan, Plan, Translation, AlignUp, OutsideKept, Mappable, KernelSees, Reaches;
    hide TablesForImage;
    SkewedIsMappable();
    SkewedTables();
    var ram := new u64[16384](_ => 0);
    var arena := new Arena(0x1000, 0x1_0000);
    var tables := new PageTables(ram, arena);
    var ok := BuildKernelTables(tables, arena, SkewedImage(), true, false);
    m, root := ram[..], tables.root;
    assert SkewedImage().segments[1] == DataSegment();
    SegmentIsMapped(m, root, SkewedImage(), true, false, DataSegment(), 0);
  }
}
