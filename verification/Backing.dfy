/** The blocks of a volume and the block store that keeps them. */
module Backing {
  import opened ByteStrings
  import opened Paths
  import opened Storage
  import opened Volumes
  import opened Changes
  import opened BlockStorage

  /** The changes of the blocks of a volume over a run, as requests to a block store. */
  ghost predicate BlocksRun(volumes: seq<Volume>, requests: seq<BlockRequest>) {
    && |volumes| == |requests| + 1
    && forall i :: 0 <= i < |requests| ==> volumes[i + 1].blocks == Applied(volumes[i].blocks, requests[i])
  }

  lemma {:induction false} BlocksFollow(volumes: seq<Volume>, requests: seq<BlockRequest>, n: nat)
    requires BlocksRun(volumes, requests) && n <= |requests|
    ensures volumes[n].blocks == AppliedAll(volumes[0].blocks, requests[..n])
  {
    hide Applied;
    if n == 0 {
      NothingApplied(volumes[0].blocks);
    } else {
      BlocksFollow(volumes, requests, n - 1);
      AppliedNext(volumes[0].blocks, requests, n - 1);
    }
  }

  /** What the operations of the service do to the blocks are such requests. */
  lemma OperationsApply(v: Volume, w: Volume, path: Path, id: nat)
    ensures OneBlock(v.blocks, w.blocks, id) && w.blocks != v.blocks ==>
              id in w.blocks && w.blocks == Applied(v.blocks, Replace(id, w.blocks[id]))
    ensures path in v.active ==> Trashed(v, path).blocks == v.blocks
    ensures path in v.active ==>
              Erased(v, path).blocks
              == if v.active[path].id in v.blocks then Applied(v.blocks, Drop(v.active[path].id)) else v.blocks
    ensures path in v.deleted ==> Revived(v, path).blocks == v.blocks
    ensures path in v.deleted ==> Expunged(v, path).blocks == Applied(v.blocks, Drop(v.deleted[path].id))
  {
  }

  /** A block store that starts with the blocks of a volume keeps having them, as long as no record is
      replaced or removed that is not in one piece. */
  method Keep(s: BlockStore, requests: seq<BlockRequest>, ghost volumes: seq<Volume>) returns (served: nat)
    requires s.Valid() && s.InLayout() && BlocksRun(volumes, requests) && s.Contents() == volumes[0].blocks
    modifies s
    ensures s.Valid() && s.InLayout() && served <= |requests|
    ensures s.Contents() == volumes[served].blocks
    ensures served < |requests| ==> Scattered(s.records, requests[served])
  {
    hide Layout, BlocksRun, AppliedAll, Scattered, WellKept;
    served := ServeBlocks(s, requests);
    BlocksFollow(volumes, requests, served);
  }
}
