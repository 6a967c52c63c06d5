/** Which layouts bring every array back when no filter is applied. */
module ChunkLimits {
  import opened Bytes
  import opened ChunkCopy
  import opened ChunkCut
  import opened ChunkIo
  import opened NdIndex
  import Seqs

  /** Writing and reading `data` succeeds and restores it. */
  ghost predicate ComesBack(l: Layout, data: seq<u8>)
    requires l.Valid() && |data| == l.ArrayBytes()
  {
    l.ChunkBytes() <= MAX_CHUNK && ReadBack(l, data) == data
  }

  /** Chunks are not too large to be read, and their sizes keep as much as the array has of a chunk. */
  predicate KeepsArrays(l: Layout)
    requires |l.dims| == |l.cdims| && Positive(l.cdims)
  {
    l.ChunkBytes() <= MAX_CHUNK && Survives(l.dims, l.cdims, l.es, l.ChunkBytes() % TWO_32)
  }

  /** All arrays of a layout come back if and only if the layout keeps arrays. */
  lemma UnfilteredExactly(l: Layout)
    requires l.Valid() && l.filters == []
    ensures KeepsArrays(l) <==> forall data: seq<u8> :: |data| == l.ArrayBytes() ==> ComesBack(l, data)
  {
    hide Survives, Returned, Product;
    AllReturnedExactly(l.dims, l.cdims, l.es, l.ChunkBytes() % TWO_32);
    var m := l.ChunkBytes() % TWO_32;
    if KeepsArrays(l) {
      forall data: seq<u8> | |data| == l.ArrayBytes() ensures ComesBack(l, data) {
        assert Returned(data, l.dims, l.cdims, l.es, m, Product(l.dims)) == data;
      }
    } else if l.ChunkBytes() <= MAX_CHUNK {
      var data := LostData(l.dims, l.cdims, l.es, m);
      assert !ComesBack(l, data);
    } else {
      var data: seq<u8> := Zeroed(l.ArrayBytes());
      assert !ComesBack(l, data);
    }
  }

  /** Chunks whose size fits its field keep every array. */
  lemma SmallChunksKeep(l: Layout)
    requires l.Valid() && l.ChunkBytes() < TWO_32
    ensures KeepsArrays(l)
  {
    hide Survives, Product;
    DivUnique(l.ChunkBytes(), TWO_32, 0, l.ChunkBytes());
    WholeChunks(l.dims, l.cdims, l.es);
  }

  /** Where chunks do not stick out of the array these are the only ones. */
  lemma FullChunksExactly(l: Layout)
    requires l.Valid() && Product(l.dims) > 0 && l.es > 0 && forall i :: 0 <= i < |l.dims| ==> l.cdims[i] <= l.dims[i]
    ensures KeepsArrays(l) <==> l.ChunkBytes() < TWO_32
  {
    hide Survives, Product;
    FullChunks(l.dims, l.cdims, l.es, l.ChunkBytes() % TWO_32);
    if l.ChunkBytes() < TWO_32 {
      SmallChunksKeep(l);
    }
  }

  // ----- an example

  lemma {:induction false} NothingKept(data: seq<u8>, dims: seq<nat>, cdims: seq<nat>, es: nat, n: nat)
    requires |dims| == |cdims| && Positive(cdims) && n <= Product(dims) && |data| == Times(Product(dims), es)
    ensures forall k :: 0 <= k < Times(n, es) ==> Returned(data, dims, cdims, es, 0, n)[k] == 0
  {
    hide Product, InChunk, Elem;
    if n > 0 {
      NothingKept(data, dims, cdims, es, n - 1);
    }
  }

  /** One chunk of 2^32 bytes is stored with size 0: whatever the array, zeros are read back. */
  lemma ExampleLost(data: seq<u8>)
    requires |data| == TWO_32
    ensures var l := Layout([0x1_0000, 0x1_0000], [0x1_0000, 0x1_0000], 1, []);
            && l.Valid() && l.ArrayBytes() == l.ChunkBytes() == TWO_32 <= MAX_CHUNK
            && forall k :: 0 <= k < TWO_32 ==> ReadBack(l, data)[k] == 0
  {
    var dims: seq<nat> := [0x1_0000, 0x1_0000];
    SquareProduct();
    TimesIsProduct(TWO_32, 1);
    hide Product, Returned;
    NothingKept(data, dims, dims, 1, TWO_32);
  }

  lemma SquareProduct()
    ensures Product([0x1_0000, 0x1_0000]) == TWO_32
  {
    assert [0x1_0000 as nat, 0x1_0000][1..] == [0x1_0000];
    assert [0x1_0000 as nat][1..] == [];
  }
}
