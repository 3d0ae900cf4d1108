// The hook's copy of an opened file into shared memory (set_map in
// src/hook/hook.c): reads of 1024 bytes of which 1023 are moved.
module ShmCopy {
  import opened Bytes
  import opened Reading

  const CHUNK: nat := 1024

  // Size of the mapping.
  const SHM_SIZE: nat := 1024 * 1024 * 1024

  // What arrives: every byte except those at offsets 1023 modulo 1024.
  function Image(file: Data, size: nat): Data {
    seq(size, i requires 0 <= i < size => if i < |file| && i % CHUNK != CHUNK - 1 then file[i] else 0)
  }

  lemma {:induction false} NoFailure(script: seq<Response>, want: nat, avail: nat)
    requires forall i :: 0 <= i < |script| ==> !script[i].Failed?
    ensures !Fails(script, want, avail)
    decreases |script|
  {
    if want != 0 && script != [] {
      assert !script[0].Failed?;
      assert forall i :: 0 <= i < |script[1..]| ==> script[1..][i] == script[i + 1];
      if script[0].Interrupted? {
        NoFailure(script[1..], want, avail);
      } else {
        var got := Got(script[0], want, avail);
        NoFailure(script[1..], want - got, avail - got);
      }
    }
  }

  // memset and readn: the next piece of the file, padded with zeros.
  method ReadPiece(file: Data, from: nat, script: seq<Response>, buf: array<byte>) returns (n: nat)
    requires from <= |file| && buf.Length == CHUNK
    requires forall i :: 0 <= i < |script| ==> !script[i].Failed?
    modifies buf
    ensures n == Min(CHUNK, |file| - from)
    ensures forall i :: 0 <= i < CHUNK ==> buf[i] == if i < n then file[from + i] else 0
  {
    forall i | 0 <= i < CHUNK {
      buf[i] := 0;
    }
    NoFailure(script, CHUNK, |file| - from);
    ghost var zeros := buf[..];
    var stream := file[from..];
    n := ReadN(stream, script, buf);
    assert forall i :: 0 <= i < n ==> buf[i] == buf[..n][i] == stream[i] == file[from + i];
    assert forall i :: n <= i < CHUNK ==> buf[i] == buf[n..][i - n] == zeros[n..][i - n] == 0;
  }

  // memmove: all of the buffer but its last byte.
  method MovePiece(shm: array<byte>, at: nat, buf: array<byte>)
    requires buf.Length == CHUNK && at + CHUNK - 1 <= shm.Length && buf != shm
    modifies shm
    ensures forall i :: 0 <= i < shm.Length ==>
              shm[i] == if at <= i < at + CHUNK - 1 then buf[i - at] else old(shm[i])
  {
    forall i | 0 <= i < CHUNK - 1 {
      shm[at + i] := buf[i];
    }
  }

  // One pass of the loop turns the image of a prefix into that of a longer one.
  lemma ChunkAdded(file: Data, from: nat, to: nat, before: Data, after: Data)
    requires from % CHUNK == 0 && from < to <= |file| <= |before| && to == Min(from + CHUNK, |file|)
    requires before == Image(file[..from], |before|)
    requires |after| == |before| && from + CHUNK - 1 <= |before|
    requires forall i :: 0 <= i < |before| ==>
               after[i] == if from <= i < from + CHUNK - 1 then (if i < to then file[i] else 0) else before[i]
    ensures after == Image(file[..to], |after|)
  {
    forall i | 0 <= i < |after|
      ensures after[i] == Image(file[..to], |after|)[i]
    {
      if from <= i < from + CHUNK {
        assert i % CHUNK == i - from;
      }
    }
  }

  // `shm` is the fresh, zeroed mapping; `kernel` how read() answers during each
  // call of readn.  Read errors and a file that changes size would keep the loop
  // running and are excluded.
  method SetMap(file: Data, shm: array<byte>, kernel: seq<seq<Response>>)
    requires |file| <= shm.Length && shm.Length % CHUNK == 0
    requires forall i :: 0 <= i < shm.Length ==> shm[i] == 0
    requires forall k, i :: 0 <= k < |kernel| && 0 <= i < |kernel[k]| ==> !kernel[k][i].Failed?
    modifies shm
    ensures shm[..] == Image(file, shm.Length)
  {
    var buf := new byte[CHUNK](i => 0);
    var number := |file|;
    var numbern := 0;
    var memPtr := 0;
    var calls := 0;
    while numbern != number
      invariant 0 <= numbern <= number && memPtr == numbern && calls >= 0
      invariant numbern % CHUNK == 0 || numbern == number
      invariant shm[..] == Image(file[..numbern], shm.Length)
      decreases number - numbern
    {
      var script := if calls < |kernel| then kernel[calls] else [];
      var numberTemp := ReadPiece(file, numbern, script, buf);
      calls := calls + 1;
      numbern := numbern + numberTemp;
      ghost var before := shm[..];
      MovePiece(shm, memPtr, buf);
      ChunkAdded(file, memPtr, numbern, before, shm[..]);
      memPtr := memPtr + numberTemp;
    }
    assert file[..number] == file;
  }
}
