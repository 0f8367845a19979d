/** What the kernel finds when it is entered (src/boot/main.c), in numbers taken from its
    image alone: which addresses lead somewhere, where, and with which rights; which images
    that is possible for; and how many tables it takes. Nothing here is in terms of the
    ranges that are mapped. */
module KernelViews {
  import opened Words
  import opened Processor
  import opened ElfImage

  // ----- the image -----

  /** How far above its physical address the first segment is linked, in 64 bits. */
  function Distance(image: Image): u64
    requires image.segments != []
  {
    (image.segments[0].virtualAddress - image.segments[0].physicalAddress) % 0x1_0000_0000_0000_0000
  }

  predicate Elsewhere(s: Segment) { s.virtualAddress != s.physicalAddress }

  /** The page of `w` holds a byte of the segment. */
  predicate Meets(s: Segment, w: int) {
    s.virtualAddress / 0x1000 <= w / 0x1000 <= (s.virtualAddress + s.memoryBytes - 1) / 0x1000
  }

  /** How much of physical memory is to be found at a distance: four gigabytes, or what
      there is room for below the last page of the address space. */
  function Window(base: u64): int {
    if 0xFFFF_FFFE_FFFF_F000 < base <= 0xFFFF_FFFF_FFFF_F000 then 0xFFFF_FFFF_FFFF_F000 - base else 0x1_0000_0000
  }

  /** Pages before the image's first page. */
  function PagesBelow(image: Image): nat { image.lowest / 0x1000 }

  /** The first page after the image's last byte, counted in 64 bits. */
  function PageAbove(image: Image): nat { (image.highest + 0xFFF) % 0x1_0000_0000_0000_0000 / 0x1000 }

  /** `w` is where the kernel finds physical memory below its image. */
  predicate Below(image: Image, w: int)
    requires image.segments != []
  {
    Distance(image) != 0 && 0 <= w - Distance(image) && (w - Distance(image)) / 0x1000 < PagesBelow(image)
  }

  /** `w` is where the kernel finds physical memory above its image. */
  predicate Above(image: Image, w: int)
    requires image.segments != []
  {
    && Distance(image) != 0 && 0 <= w - Distance(image) < Window(Distance(image))
    && PageAbove(image) <= (w - Distance(image)) / 0x1000
  }

  // ----- the images that can be mapped -----

  /** The bytes from `first` to `end` are in one half of the address space, and not in its
      last page. */
  predicate InOneHalf(first: int, end: int) {
    end <= 0x8000_0000_0000 || (0xFFFF_8000_0000_0000 <= first && end <= 0xFFFF_FFFF_FFFF_F000)
  }

  predicate Fits(s: Segment) {
    && InOneHalf(s.virtualAddress, s.virtualAddress + s.memoryBytes)
    && s.physicalAddress - s.physicalAddress % 0x1000 + s.virtualAddress % 0x1000 + s.memoryBytes <=
      0xFFFF_FFFF_FFFF_F000
  }

  /** The last page of one is before the first page of the other. */
  predicate OtherPages(s: Segment, t: Segment) {
    || (s.virtualAddress + s.memoryBytes - 1) / 0x1000 < t.virtualAddress / 0x1000
    || (t.virtualAddress + t.memoryBytes - 1) / 0x1000 < s.virtualAddress / 0x1000
  }

  predicate DirectFits(base: u64, below: int, above: int) {
    && (base != 0 && below > 0 ==> base % 0x1000 == 0 && InOneHalf(base, base + 0x1000 * below))
    && (base != 0 && 0x1000 * above < Window(base) ==>
          base % 0x1000 == 0 && InOneHalf(base + 0x1000 * above, base + Window(base)) && below <= above)
  }

  /** The segments and the direct map lie in the halves of the address space, above the
      first four gigabytes, and no page of them coincides with another. */
  ghost predicate Mappable(image: Image)
    requires image.segments != []
  {
    && DirectFits(Distance(image), PagesBelow(image), PageAbove(image))
    && (forall w: u64 :: Below(image, w) || Above(image, w) ==> w >= 0x1_0000_0000)
    && (forall s :: s in image.segments && Elsewhere(s) ==> Fits(s))
    && (forall s, w: u64 :: s in image.segments && Elsewhere(s) && Meets(s, w) ==>
          w >= 0x1_0000_0000 && !Below(image, w) && !Above(image, w))
    && (forall i, j :: 0 <= i < j < |image.segments| && Elsewhere(image.segments[i]) && Elsewhere(image.segments[j]) ==>
          OtherPages(image.segments[i], image.segments[j]))
  }

  ghost predicate AllSound(segments: seq<Segment>) {
    forall s :: s in segments ==> s.Sound()
  }

  // ----- what the kernel finds -----

  /** The byte of the segment's memory that stands at `w`, and the rights of its program
      header: bit 1 of its flags to write, bit 0 to execute. */
  function SegmentAccess(s: Segment, w: int, noExecute: bool): Access {
    Access((s.physicalAddress - s.physicalAddress % 0x1000 + (w - 0x1000 * (s.virtualAddress / 0x1000)))
             % 0x10_0000_0000_0000,
           s.flags / 2 % 2 == 1, false, s.flags % 2 == 1 || !noExecute)
  }

  ghost predicate InSegment(image: Image, w: int) {
    exists s :: s in image.segments && Elsewhere(s) && Meets(s, w)
  }

  /** What the kernel is to find at an address: low memory at its own addresses, memory
      around the image at a distance, segments with their own rights, and nothing else. */
  ghost predicate SeenAt(image: Image, noExecute: bool, w: u64, seen: Option<Access>)
    requires image.segments != []
  {
    && (seen.Some? <==> w < 0x1_0000_0000 || Below(image, w) || Above(image, w) || InSegment(image, w))
    && (w < 0x1_0000_0000 ==> seen == Some(Access(w, true, false, true)))
    && (Below(image, w) || Above(image, w) ==>
          seen == Some(Access((w - Distance(image)) % 0x10_0000_0000_0000, true, false, !noExecute)))
    && (forall s :: s in image.segments && Elsewhere(s) && Meets(s, w) ==>
          seen == Some(SegmentAccess(s, w, noExecute)))
  }

  /** The processor finds at every address what the kernel is to find there. */
  ghost predicate KernelSees(m: seq<u64>, root: int, image: Image, noExecute: bool, huge: bool)
    requires image.segments != []
  {
    forall w: u64 :: SeenAt(image, noExecute, w, Reaches(Features(noExecute, huge), m, root, w))
  }

  // ----- how many tables it takes -----

  /** The tables that addresses from `first` to `last` can take: one for each 512 GiB, 1 GiB
      and 2 MiB they touch, but only two of the last where 2 MiB pages serve the middle. */
  function TablesSpanned(first: int, last: int, inStep: bool): int {
    var small := last / 0x20_0000 - first / 0x20_0000 + 1;
    (if inStep && small > 2 then 2 else small)
      + (last / 0x4000_0000 - first / 0x4000_0000 + 1)
      + (last / 0x80_0000_0000 - first / 0x80_0000_0000 + 1)
  }

  function DirectTables(base: u64, below: nat, above: nat): int {
    if base == 0 then 0
    else
      (if below > 0 then TablesSpanned(base, base + 0x1000 * below - 1, base % 0x20_0000 == 0) else 0) +
      (if 0x1000 * above < Window(base)
       then TablesSpanned(base + 0x1000 * above, base + Window(base) - 1, base % 0x20_0000 == 0) else 0)
  }

  function SegmentTables(segments: seq<Segment>): int {
    if segments == [] then 0
    else
      var s := segments[|segments| - 1];
      SegmentTables(segments[..|segments| - 1]) +
      (if Elsewhere(s)
       then TablesSpanned(s.virtualAddress, s.virtualAddress + s.memoryBytes - 1,
                          s.virtualAddress % 0x20_0000 == s.physicalAddress % 0x20_0000)
       else 0)
  }

  /** The tables an image can take besides the root: seven for the first four gigabytes,
      those of the direct map, and those of the segments. */
  function TablesForImage(image: Image): int
    requires image.segments != []
  {
    7 + DirectTables(Distance(image), PagesBelow(image), PageAbove(image)) + SegmentTables(image.segments)
  }

  // ----- what follows -----

  /** Every byte of a segment that is linked away from where it is loaded is reachable,
      with exactly the permissions of its program header. It is reached at its own
      physical byte exactly when both addresses sit at the same place in their page, which
      nothing checks. */
  lemma SegmentIsMapped(m: seq<u64>, root: int, image: Image, noExecute: bool, huge: bool, s: Segment, k: int)
    requires image.segments != [] && KernelSees(m, root, image, noExecute, huge)
    requires s in image.segments && s.Sound() && Elsewhere(s) && 0 <= k < s.memoryBytes
    ensures var seen := Reaches(Features(noExecute, huge), m, root, s.virtualAddress + k);
      && seen.Some? && !seen.value.user
      && seen.value.writable == (s.flags / 2 % 2 == 1)
      && seen.value.executable == (s.flags % 2 == 1 || !noExecute)
      && (seen.value.physical == s.physicalAddress + k <==>
            s.virtualAddress % 0x1000 == s.physicalAddress % 0x1000 && s.physicalAddress + k < 0x10_0000_0000_0000)
  {
    hide Reaches, Below, Above, InSegment;
    var w: u64 := s.virtualAddress + k;
    BytesAreMet(s, w);
    assert SeenAt(image, noExecute, w, Reaches(Features(noExecute, huge), m, root, w));
    InStep(s.virtualAddress, s.physicalAddress, k);
  }

  lemma BytesAreMet(s: Segment, w: int)
    requires s.virtualAddress <= w < s.virtualAddress + s.memoryBytes
    ensures Meets(s, w)
  {
  }

  /** The pages that meet a segment are those with a byte of it. */
  lemma MeetsIsSharing(s: Segment, w: nat)
    requires s.memoryBytes > 0
    ensures Meets(s, w) <==>
      exists b :: s.virtualAddress <= b < s.virtualAddress + s.memoryBytes && SamePage(b, w)
  {
    var first, last := s.virtualAddress, s.virtualAddress + s.memoryBytes - 1;
    if Meets(s, w) {
      var b := if first / 0x1000 == w / 0x1000 then first else if w / 0x1000 == last / 0x1000 then last else w;
      assert SamePage(b, w);
    }
  }

  predicate SamePage(a: int, b: int) { a / 0x1000 == b / 0x1000 }

  lemma InStep(virtual: u64, physical: u64, k: int)
    requires 0 <= k
    ensures (physical - physical % 0x1000 + (virtual + k - 0x1000 * (virtual / 0x1000))) % 0x10_0000_0000_0000 ==
      physical + k
      <==> virtual % 0x1000 == physical % 0x1000 && physical + k < 0x10_0000_0000_0000
  {
    var v, p := virtual % 0x1000, physical % 0x1000;
    var reached := physical - p + (virtual + k - 0x1000 * (virtual / 0x1000));
    assert reached == physical + k + v - p;
    if physical + k < 0x10_0000_0000_0000 {
      if reached < 0x10_0000_0000_0000 {
        DivisionIs(reached, 0x10_0000_0000_0000, 0, reached);
      } else {
        DivisionIs(reached, 0x10_0000_0000_0000, 1, reached - 0x10_0000_0000_0000);
      }
    }
  }

  /** With no-execute available nothing above the first four gigabytes is both writable
      and executable but the pages of a segment that asked for both. */
  lemma WritableXorExecutable(m: seq<u64>, root: int, image: Image, huge: bool, w: u64)
    requires image.segments != [] && KernelSees(m, root, image, true, huge) && w >= 0x1_0000_0000
    requires var seen := Reaches(Features(true, huge), m, root, w);
      seen.Some? && seen.value.writable && seen.value.executable
    ensures exists s :: s in image.segments && Meets(s, w) && s.flags / 2 % 2 == 1 && s.flags % 2 == 1
  {
    hide Reaches, Below, Above, Meets;
    assert SeenAt(image, true, w, Reaches(Features(true, huge), m, root, w));
  }

  /** For the first segment the direct map sees to it: where there is one, the image is
      only mappable if the segment's two addresses sit at the same place in their page. */
  lemma FirstSegmentAgrees(image: Image)
    requires image.segments != [] && Mappable(image) && Distance(image) != 0
    requires PagesBelow(image) > 0 || 0x1000 * PageAbove(image) < Window(Distance(image))
    ensures image.segments[0].virtualAddress % 0x1000 == image.segments[0].physicalAddress % 0x1000
  {
    BaseAligned(image.segments[0].virtualAddress, image.segments[0].physicalAddress, Distance(image));
  }

  lemma BaseAligned(virtual: u64, physical: u64, base: u64)
    requires base % 0x1000 == 0 && base == (virtual - physical) % 0x1_0000_0000_0000_0000
    ensures virtual % 0x1000 == physical % 0x1000
  {
  }

  // ----- an ordinary kernel -----

  /** Every segment is linked at the same distance, of whole pages, in the upper half of
      the address space, from where it is loaded. */
  predicate Ordinary(image: Image, distance: int) {
    && image.segments != []
    && distance % 0x1000 == 0 && distance >= 0xFFFF_8000_0000_0000
    && distance + image.highest <= 0xFFFF_FFFF_FFFF_F000
    && forall s :: s in image.segments ==>
         && s.Sound() && s.virtualAddress == s.physicalAddress + distance
         && image.lowest <= s.physicalAddress && s.physicalAddress + s.memoryBytes <= image.highest
  }

  lemma OrdinaryDirect(distance: u64, lowest: u64, highest: u64)
    requires distance % 0x1000 == 0 && distance >= 0xFFFF_8000_0000_0000
    requires lowest <= highest && distance + highest <= 0xFFFF_FFFF_FFFF_F000
    ensures DirectFits(distance, lowest / 0x1000, (highest + 0xFFF) / 0x1000)
  {
  }

  /** Its pages are between the two parts of the direct map. */
  lemma OrdinaryPages(s: Segment, distance: u64, lowest: u64, highest: u64, w: u64)
    requires distance % 0x1000 == 0 && s.virtualAddress == s.physicalAddress + distance
    requires lowest <= s.physicalAddress && s.physicalAddress + s.memoryBytes <= highest && s.memoryBytes > 0
    requires Meets(s, w)
    ensures w >= distance && lowest / 0x1000 <= (w - distance) / 0x1000 < (highest + 0xFFF) / 0x1000
  {
    var pages, last := distance / 0x1000, s.physicalAddress + s.memoryBytes - 1;
    PagesAway(s.physicalAddress, pages);
    PagesAway(last, pages);
    PagesAway(w - distance, pages);
  }

  lemma PagesAway(x: int, pages: int)
    ensures (x + 0x1000 * pages) / 0x1000 == x / 0x1000 + pages
  {
    DivisionIs(x + 0x1000 * pages, 0x1000, x / 0x1000 + pages, x % 0x1000);
  }

  lemma SamePagesApart(s: Segment, t: Segment, distance: u64)
    requires distance % 0x1000 == 0
    requires s.virtualAddress == s.physicalAddress + distance && t.virtualAddress == t.physicalAddress + distance
    ensures OtherPages(s, t) <==>
      || (s.physicalAddress + s.memoryBytes - 1) / 0x1000 < t.physicalAddress / 0x1000
      || (t.physicalAddress + t.memoryBytes - 1) / 0x1000 < s.physicalAddress / 0x1000
  {
    var pages := distance / 0x1000;
    PagesAway(s.physicalAddress, pages);
    PagesAway(t.physicalAddress, pages);
    PagesAway(s.physicalAddress + s.memoryBytes - 1, pages);
    PagesAway(t.physicalAddress + t.memoryBytes - 1, pages);
  }

  lemma OrdinaryFits(s: Segment, distance: u64, highest: u64)
    requires distance % 0x1000 == 0 && distance >= 0xFFFF_8000_0000_0000
    requires distance + highest <= 0xFFFF_FFFF_FFFF_F000
    requires s.virtualAddress == s.physicalAddress + distance && s.physicalAddress + s.memoryBytes <= highest
    ensures Fits(s)
  {
    var pages := distance / 0x1000;
    DivisionIs(s.physicalAddress + distance, 0x1000, s.physicalAddress / 0x1000 + pages, s.physicalAddress % 0x1000);
  }

  /** If moreover no two segments are loaded in the same page, it can be mapped, direct map
      and all. */
  lemma OrdinaryIsMappable(image: Image, distance: int)
    requires Ordinary(image, distance)
    requires forall i, j :: 0 <= i < j < |image.segments| ==>
      var s, t := image.segments[i], image.segments[j];
      || (s.physicalAddress + s.memoryBytes - 1) / 0x1000 < t.physicalAddress / 0x1000
      || (t.physicalAddress + t.memoryBytes - 1) / 0x1000 < s.physicalAddress / 0x1000
    ensures Mappable(image) && Distance(image) == distance
  {
    var first := image.segments[0];
    assert first in image.segments;
    DivisionIs(distance, 0x1_0000_0000_0000_0000, 0, distance);
    DivisionIs(image.highest + 0xFFF, 0x1_0000_0000_0000_0000, 0, image.highest + 0xFFF);
    assert Distance(image) == distance;
    hide Distance, Meets, Segment.Sound, OtherPages;
    OrdinaryDirect(distance, image.lowest, image.highest);
    forall s, w: u64 | s in image.segments && Elsewhere(s) && Meets(s, w)
      ensures w >= 0x1_0000_0000 && !Below(image, w) && !Above(image, w)
    {
      OrdinaryPages(s, distance, image.lowest, image.highest, w);
    }
    forall i, j | 0 <= i < j < |image.segments|
      ensures OtherPages(image.segments[i], image.segments[j])
    {
      assert image.segments[i] in image.segments && image.segments[j] in image.segments;
      SamePagesApart(image.segments[i], image.segments[j], distance);
    }
    forall s | s in image.segments
      ensures Fits(s)
    {
      OrdinaryFits(s, distance, image.highest);
    }
  }
}
