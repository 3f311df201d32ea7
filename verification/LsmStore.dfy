/** The methods of `LsmStore` as they run while their locks are held: the data steps that `LsmMachine` interleaves. */
module LsmStore {
  import opened Basics
  import opened Edges
  import opened Delta
  import M = LsmMachine

  class LsmStore {
    var snapshot: Graph
    const delta: DeltaBuffer

    ghost predicate Valid()
      reads this, delta
    {
      GraphOk(snapshot) && delta.Valid()
    }

    /** The snapshot as the lock-level machine sees it. */
    ghost function Snap(): (s: M.Snapshot)
      reads this
    {
      M.Snapshot(snapshot.nodeCount, SetOf(snapshot.edges))
    }

    ghost function Buf(): (b: M.Buffer)
      reads this, delta
    {
      M.Buffer(delta.inserts, delta.deletes)
    }

    constructor (snapshot: Graph)
      requires GraphOk(snapshot)
      ensures Valid() && fresh(delta) && this.snapshot == snapshot && Buf() == M.Buffer({}, {})
    {
      this.snapshot := snapshot;
      delta := new DeltaBuffer();
    }

    method Insert(e: Edge)
      requires Valid()
      modifies delta
      ensures Valid() && Snap() == old(Snap()) && Buf() == M.Queue(old(Buf()), Ins(e))
    {
      delta.Insert(e);
    }

    method Delete(e: Edge)
      requires Valid()
      modifies delta
      ensures Valid() && Snap() == old(Snap()) && Buf() == M.Queue(old(Buf()), Del(e))
    {
      delta.Delete(e);
    }

    /** The logical edge table, each edge once, in key order. */
    method MergedEdges() returns (edges: seq<Edge>)
      requires Valid()
      ensures NoDup(edges) && CanonicalOrder(edges) && SetOf(edges) == M.Fold(Snap(), Buf()).edges
    {
      edges := delta.Apply(snapshot.edges);
    }

    /** Fold the delta into the snapshot. With nothing pending nothing happens; if the rebuild fails nothing
        happens either; otherwise the snapshot is the fold, the delta is empty, and readers see no difference. */
    method CompactNow() returns (r: Result<()>)
      requires Valid()
      modifies this, delta
      ensures Valid()
      ensures r.Err? <==> M.CannotFold(old(Snap()), old(Buf()))
      ensures M.Empty(old(Buf())) || r.Err? ==> snapshot == old(snapshot) && Buf() == old(Buf())
      ensures !M.Empty(old(Buf())) && r.Ok? ==>
                && Snap() == M.Fold(old(Snap()), old(Buf())) && Buf() == M.Buffer({}, {})
                && NoDup(snapshot.edges)
      ensures M.Fold(Snap(), Buf()).edges == old(M.Fold(Snap(), Buf()).edges)
    {
      if delta.IsEmpty() {
        return Ok(());
      }
      var compacted := Compact(snapshot, delta);
      if compacted.Err? {
        return Err(compacted.error);
      }
      snapshot := compacted.value;
      delta.Clear();
      r := Ok(());
    }
  }
}
