/** The download paths of fastboot/fastboot_driver.cpp: what SparseWriteCallback, the final flush and the mapping loop
    hand to the transport. */
module SparseWriter {
  import opened Bytes

  const TRANSPORT_CHUNK_SIZE: nat := 1024
  const MAX_MAP_SIZE: nat := 512 * 1024 * 1024

  predicate Chunked(write: seq<byte>) {
    |write| > 0 && |write| % TRANSPORT_CHUNK_SIZE == 0
  }

  predicate AllChunked(writes: seq<seq<byte>>) {
    forall i | 0 <= i < |writes| :: Chunked(writes[i])
  }

  function WholeChunks(n: nat): (nbytes: nat)
    ensures nbytes <= n < nbytes + TRANSPORT_CHUNK_SIZE && nbytes % TRANSPORT_CHUNK_SIZE == 0
  {
    TRANSPORT_CHUNK_SIZE * (n / TRANSPORT_CHUNK_SIZE)
  }

  lemma Cut(a: seq<byte>, data: seq<byte>, n: nat)
    requires n <= |data|
    ensures a + data == a + data[..n] + data[n..]
  {
  }

  lemma Splice(a: seq<byte>, b: seq<byte>, data: seq<byte>, n: nat)
    requires n <= |data|
    ensures a + b + data == a + (b + data[..n]) + data[n..]
  {
  }

  class FastBootDriver {
    var tpbuf: seq<byte>
    ghost var writes: seq<seq<byte>>  // the buffers that the transport took whole
    ghost var taken: seq<byte>        // all the bytes it took, those of failed writes too
    ghost var failed: bool            // it did not take a buffer whole

    /** No write has failed. */
    ghost predicate Idle()
      reads this
    {
      taken == Flatten(writes) && !failed
    }

    constructor ()
      ensures tpbuf == [] && Idle() && writes == []
    {
      tpbuf, writes, taken, failed := [], [], [], false;
    }

    /** The transport's Write. It may take a part of the buffer, with or without saying so. */
    method TransportWrite(buf: seq<byte>) returns (tmp: int)
      modifies this`taken, this`failed
      ensures tmp <= |buf| && (failed <==> old(failed) || tmp != |buf|)
      ensures old(taken) <= taken <= old(taken) + buf && (tmp == |buf| ==> taken == old(taken) + buf)
    {
      var took: nat :| took <= |buf|;
      tmp := took;
      if * {
        tmp := -1;
      }
      assert buf[..|buf|] == buf;
      taken, failed := taken + buf[..took], failed || tmp != |buf|;
    }

    /** SendBuffer: anything but the whole buffer is an error. */
    method SendBuffer(buf: seq<byte>) returns (ok: bool)
      requires Idle()
      modifies this`writes, this`taken, this`failed
      ensures ok <==> buf != [] && !failed
      ensures ok ==> Idle() && writes == old(writes) + [buf] && taken == old(taken) + buf
      ensures !ok ==> writes == old(writes) && old(taken) <= taken <= old(taken) + buf
    {
      if |buf| == 0 {
        return false;
      }
      var tmp := TransportWrite(buf);
      if tmp < 0 || tmp != |buf| {
        return false;
      }
      FlattenSnoc(writes, buf);
      writes := writes + [buf];
      return true;
    }

    /** What holds between two calls of SparseWriteCallback, `fed` being all it was given. */
    ghost predicate Keeps(fed: seq<byte>)
      reads this
    {
      && Idle() && taken + tpbuf == fed && AllChunked(writes)
      && |taken| % TRANSPORT_CHUNK_SIZE == 0 && |tpbuf| < TRANSPORT_CHUNK_SIZE
    }

    lemma KeepsTheRest(fed: seq<byte>)
      requires Keeps(fed)
      ensures |tpbuf| == |fed| % 1024
    {
    }

    /** The second half of SparseWriteCallback, with nothing left in tpbuf: the whole chunks are sent, the rest kept. */
    method SendWholeChunks(data: seq<byte>) returns (r: int)
      requires Keeps(taken) && tpbuf == []
      modifies this
      ensures r == 0 || r == -1
      ensures r == 0 ==> Keeps(old(taken) + data)
      ensures r == -1 ==> failed
      ensures taken <= old(taken) + data
    {
      var nbytes := WholeChunks(|data|);
      Cut(taken, data, nbytes);
      if nbytes != 0 {
        var sent := SendBuffer(data[..nbytes]);
        if !sent {
          return -1;
        }
      }
      if |data| - nbytes > 0 {
        tpbuf := data[nbytes..];
      }
      return 0;
    }

    /** One call of the callback, after `fed`. Whatever the transport has taken is a prefix of what came in. */
    method SparseWriteCallback(data: seq<byte>, ghost fed: seq<byte>) returns (r: int)
      requires Keeps(fed)
      modifies this
      ensures r == 0 || r == -1
      ensures r == 0 ==> Keeps(fed + data) && |tpbuf| == |fed + data| % 1024
      ensures r == -1 ==> failed
      ensures taken <= fed + data
    {
      var toWrite := Min(TRANSPORT_CHUNK_SIZE - |tpbuf|, |data|);
      Splice(taken, tpbuf, data, toWrite);
      tpbuf := tpbuf + data[..toWrite];
      if |tpbuf| < TRANSPORT_CHUNK_SIZE {
        assert data[toWrite..] == [] && fed + data == taken + tpbuf;
        KeepsTheRest(fed + data);
        return 0;
      }
      var sent := SendBuffer(tpbuf);
      if !sent {
        return -1;
      }
      tpbuf := [];
      assert taken + [] == taken;
      r := SendWholeChunks(data[toWrite..]);
      if r == 0 {
        KeepsTheRest(fed + data);
      }
    }

    /** Download of a sparse file: the callback for every buffer the file is read in, and the flush. */
    method DownloadSparse(buffers: seq<seq<byte>>) returns (ok: bool)
      requires tpbuf == [] && writes == [] && taken == [] && !failed
      modifies this
      ensures ok <==> !failed
      ensures taken <= Flatten(buffers)
      ensures ok ==> taken == Flatten(writes) == Flatten(buffers)
      ensures ok ==> forall i | 0 <= i < |writes| - 1 :: |writes[i]| % 1024 == 0
      ensures ok ==> forall i | 0 <= i < |writes| :: writes[i] != []
    {
      for i := 0 to |buffers|
        invariant Keeps(Flatten(buffers[..i])) == true
      {
        FlattenTake(buffers, i);
        FlattenSplit(buffers, i + 1);
        var r := SparseWriteCallback(buffers[i], Flatten(buffers[..i]));
        if r < 0 {
          return false;
        }
      }
      assert buffers[..|buffers|] == buffers;
      ok := true;
      if |tpbuf| != 0 {
        ok := SendBuffer(tpbuf);
      }
    }

    /** SendBuffer of a file: mapped in pieces, with the size in a uint32_t. */
    method SendFile(file: seq<byte>) returns (ok: bool)
      requires writes == [] && taken == [] && !failed
      modifies this`writes, this`taken, this`failed
      ensures ok <==> !failed
      ensures taken <= file
      ensures ok ==> taken == Flatten(writes) == file[..AsUint32(|file|)]
      ensures ok ==> (taken == file <==> |file| < 0x1_0000_0000)
      ensures forall i | 0 <= i < |writes| :: 0 < |writes[i]| <= 0x2000_0000
      ensures forall i | 0 <= i < |writes| - 1 :: |writes[i]| == 0x2000_0000
    {
      var offset: nat, remaining: nat := 0, AsUint32(|file|);
      ghost var size := remaining;
      while remaining != 0
        invariant offset + remaining == size <= |file| && Idle() && taken == file[..offset]
        invariant forall i | 0 <= i < |writes| :: 0 < |writes[i]| <= MAX_MAP_SIZE
        invariant forall i | 0 <= i < |writes| && (remaining > 0 || i < |writes| - 1) :: |writes[i]| == MAX_MAP_SIZE
      {
        var len := Min(remaining, MAX_MAP_SIZE);
        assert file[..offset + len] == file[..offset] + file[offset..offset + len];
        ok := SendBuffer(file[offset..offset + len]);
        if !ok {
          return;
        }
        remaining, offset := remaining - len, offset + len;
      }
      ok := true;
    }
  }
}
