/** Any number of reads, of any open files of a volume, in any order. They share one
    cached FAT sector and each file keeps its own cursor; neither shows. */
module FatSessions {
  import opened Words
  import opened BlockDevices
  import opened FatLayout
  import opened FatVolumes

  datatype Request = Request(file: nat, offset: u64, length: nat)

  /** Every file that is open agrees with the disk. */
  ghost predicate AllValid(volume: FatVolume, files: seq<FatFile>)
    reads volume, volume.fatSector, volume.device.disk, set f | f in files
  {
    volume.Valid() && forall i :: 0 <= i < |files| ==> files[i].volume == volume && files[i].Valid()
  }

  /** The bytes of the file's chain, as the links on the disk define it. */
  ghost predicate IsExact(d: BlockDevice, g: Geometry, file: FatFile, r: Request, bytes: seq<u8>)
    requires d.Valid() && g.Sound()
  {
    && |bytes| == r.length && !file.directory && (r.length > 0 ==> r.offset + r.length <= file.size)
    && forall i :: 0 <= i < |bytes| ==> ChainByte(d, g, file.firstCluster, r.offset + i) == Some(bytes[i])
  }

  /** A request that works when nothing has been read before. */
  ghost predicate WorksAlone(d: BlockDevice, g: Geometry, file: FatFile, r: Request)
    requires d.Valid() && g.Sound()
  {
    && !file.directory
    && (r.length > 0 ==>
          && r.offset + r.length <= file.size && Complete(d, g)
          && ChainReadable(d, g, file.firstCluster, r.offset, r.length, 0))
  }

  method ServeOne(volume: FatVolume, file: FatFile, r: Request) returns (answer: Option<seq<u8>>)
    requires volume.Valid() && file.volume == volume && file.Valid()
    modifies file, volume`fatSectorIndex, volume`fatSectorValid, volume`links, volume.fatSector
    modifies volume.device.disk`served, volume.device.disk`touched, volume.device.bounce
    ensures volume.Valid() && file.Valid()
    ensures answer.Some? ==> IsExact(volume.device, volume.g, file, r, answer.value)
    ensures WorksAlone(volume.device, volume.g, file, r) ==> answer.Some?
  {
    hide Geometry.Sound, Complete, ChainReadable, ChainByte;
    SoundIsSmall(volume.g);
    var out := new u8[r.length](_ => 0);
    var ok := file.Read(r.offset, r.length, out);
    if !ok {
      return None;
    }
    forall i | 0 <= i < r.length
      ensures ChainByte(volume.device, volume.g, file.firstCluster, r.offset + i) == Some(out[i])
    {
      assert ChainByte(volume.device, volume.g, file.firstCluster, r.offset + (i - 0)) == Some(out[i]);
    }
    return Some(out[..]);
  }

  /** Whatever was read before, each answer is exact, and there is one whenever the
      request would have worked by itself. */
  method ServeAll(
    volume: FatVolume, files: seq<FatFile>, requests: seq<Request>) returns (answers: seq<Option<seq<u8>>>)
    requires AllValid(volume, files)
    requires forall k :: 0 <= k < |requests| ==> requests[k].file < |files|
    modifies set f | f in files
    modifies volume`fatSectorIndex, volume`fatSectorValid, volume`links, volume.fatSector
    modifies volume.device.disk`served, volume.device.disk`touched, volume.device.bounce
    ensures AllValid(volume, files) && |answers| == |requests|
    ensures forall k :: 0 <= k < |answers| && answers[k].Some? ==>
      IsExact(volume.device, volume.g, files[requests[k].file], requests[k], answers[k].value)
    ensures forall k ::
      0 <= k < |answers| && WorksAlone(volume.device, volume.g, files[requests[k].file], requests[k]) ==>
      answers[k].Some?
  {
    hide IsExact, WorksAlone, Geometry.Sound, FatVolume.CacheAgrees;
    answers := [];
    for n := 0 to |requests|
      invariant AllValid(volume, files) && |answers| == n
      invariant forall k :: 0 <= k < n && answers[k].Some? ==>
        IsExact(volume.device, volume.g, files[requests[k].file], requests[k], answers[k].value)
      invariant forall k :: 0 <= k < n && WorksAlone(volume.device, volume.g, files[requests[k].file], requests[k]) ==>
        answers[k].Some?
    {
      var answer := ServeOne(volume, files[requests[n].file], requests[n]);
      answers := answers + [answer];
    }
  }
}
