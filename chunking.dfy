/** How both programs cut a file into packets: `fread(buf, 1, BUFSIZE, f)`
    in a loop, one packet per non-empty read, until a read returns 0.
    For a regular file every read returns `min(BUFSIZE, bytes left)`. */
module Chunking {
  import opened Base

  function Chunks(file: Bytes): (cs: seq<Bytes>)
    ensures forall i :: 0 <= i < |cs| ==> 0 < |cs[i]| <= BUFSIZE
    decreases |file|
  {
    if file == [] then []
    else if |file| <= BUFSIZE then [file]
    else [file[..BUFSIZE]] + Chunks(file[BUFSIZE..])
  }

  /** One `fread` from position `pos` yields the next chunk, and the
      chunks of the rest of the file follow it. */
  lemma ChunksStep(file: Bytes, pos: nat, n: nat)
    requires pos < |file| && n == if |file| - pos < BUFSIZE then |file| - pos else BUFSIZE
    ensures Chunks(file[pos..]) == [file[pos..pos + n]] + Chunks(file[pos + n..])
  {
    var s := file[pos..];
    if |s| <= BUFSIZE {
      assert file[pos + |s|..] == [];
      assert s == file[pos..pos + |s|];
    } else {
      assert s[..BUFSIZE] == file[pos..pos + BUFSIZE];
      assert s[BUFSIZE..] == file[pos + BUFSIZE..];
    }
  }

  /** Putting the chunks back together gives the file. */
  lemma {:induction false} ChunksFlatten(file: Bytes)
    ensures Flatten(Chunks(file)) == file
    decreases |file|
  {
    if |file| > BUFSIZE {
      ChunksFlatten(file[BUFSIZE..]);
      assert file == file[..BUFSIZE] + file[BUFSIZE..];
    }
  }

  /** Every chunk but the last is a full buffer, and there are
      ceil(|file| / BUFSIZE) of them; an empty file has none. */
  lemma {:induction false} ChunksShape(file: Bytes)
    ensures |Chunks(file)| == (|file| + BUFSIZE - 1) / BUFSIZE
    ensures forall i :: 0 <= i < |Chunks(file)| - 1 ==> |Chunks(file)[i]| == BUFSIZE
    decreases |file|
  {
    if |file| > BUFSIZE {
      ChunksShape(file[BUFSIZE..]);
    }
  }
}
