/**
 * The parts of the C library the loader stands on: the heap (`malloc`,
 * `calloc`, `free`), seen as the set of blocks currently allocated, and a
 * `FILE` opened for reading, seen as the file's bytes and a read position.
 * Which path names exist, and with what contents, is a parameter: the file
 * system itself is not modelled.
 */
module Stdio {
  import opened Bytes

  /** What `getc` returns at end of file. */
  const EOF := -1

  /**
   * The C heap: the blocks allocated and not yet freed, and how many
   * allocation requests it has refused. An `ample` heap refuses none.
   */
  class Heap {
    ghost var live: set<object>
    ghost var failures: nat
    const ample: bool

    constructor (ample: bool)
      ensures live == {} && failures == 0 && this.ample == ample
    {
      live := {};
      failures := 0;
      this.ample := ample;
    }

    /**
     * Whether the next allocation request is granted. An ample heap grants
     * every request; any other may refuse any request, whatever its size, and
     * each refusal is counted.
     */
    method Grant() returns (granted: bool)
      modifies this`failures
      ensures granted ==> failures == old(failures)
      ensures !granted ==> !ample && failures == old(failures) + 1
    {
      granted :| ample ==> granted;
      if !granted {
        failures := failures + 1;
      }
    }

    /**
     * `malloc(n * sizeof(T))`: a fresh block of `n` entries, or null. A
     * refusal also covers `malloc(0)` returning null.
     */
    method Malloc<T(0)>(n: nat) returns (a: array?<T>)
      modifies this`live, this`failures
      ensures a == null ==> live == old(live) && !ample && failures == old(failures) + 1
      ensures a != null ==> fresh(a) && a.Length == n && live == old(live) + {a} && failures == old(failures)
    {
      var granted := Grant();
      if granted {
        a := new T[n];
        live := live + {a};
      } else {
        a := null;
      }
    }

    /** `free`: the block must be one this heap handed out and has not taken back. */
    method Free(o: object)
      requires o in live
      modifies this`live
      ensures live == old(live) - {o}
    {
      live := live - {o};
    }

    /** Records a block that a typed allocator of the caller has just made. */
    method Adopt(o: object)
      requires o !in live
      modifies this`live
      ensures live == old(live) + {o}
    {
      live := live + {o};
    }
  }

  /** A `FILE` opened for reading: the whole contents and the next position to read. */
  class Stream {
    const data: seq<byte>
    var pos: nat

    ghost predicate Valid()
      reads this
    {
      pos <= |data|
    }

    constructor (data: seq<byte>)
      ensures this.data == data && pos == 0 && Valid()
    {
      this.data := data;
      pos := 0;
    }

    /** `getc`: the next byte, or EOF with the position left at the end. */
    method Getc() returns (c: int)
      requires Valid()
      modifies this`pos
      ensures Valid()
      ensures old(pos) < |data| ==> c == data[old(pos)] && pos == old(pos) + 1
      ensures old(pos) == |data| ==> c == EOF && pos == old(pos)
    {
      if pos < |data| {
        c := data[pos];
        pos := pos + 1;
      } else {
        c := EOF;
      }
    }

    /**
     * `fread(buf, 1, count, fp)`: copies bytes into `buf` until `count` have
     * been read or the file ends, and returns how many it copied. The rest of
     * `buf` is left as it was.
     */
    method Fread(buf: array<byte>, count: nat) returns (n: nat)
      requires Valid() && count <= buf.Length
      modifies this`pos, buf
      ensures Valid()
      ensures n == (if old(pos) + count <= |data| then count else |data| - old(pos))
      ensures pos == old(pos) + n
      ensures buf[..n] == data[old(pos)..pos]
      ensures buf[n..] == old(buf[n..])
    {
      n := 0;
      while n < count
        invariant n <= count && pos == old(pos) + n && Valid()
        invariant buf[..n] == data[old(pos)..pos]
        invariant buf[n..] == old(buf[n..])
      {
        var c := Getc();
        if c == EOF {
          return;
        }
        buf[n] := c;
        n := n + 1;
      }
    }
  }

  /** `fopen(path, "rb")`: null when no file has that name. */
  method Fopen(files: map<seq<char>, seq<byte>>, path: seq<char>, heap: Heap) returns (fp: Stream?)
    modifies heap`live
    ensures path !in files ==> fp == null && heap.live == old(heap.live)
    ensures path in files ==>
      fp != null && fresh(fp) && fp.data == files[path] && fp.pos == 0 &&
      heap.live == old(heap.live) + {fp}
  {
    if path !in files {
      return null;
    }
    fp := new Stream(files[path]);
    heap.Adopt(fp);
  }

  /** `fclose`: the stream's storage goes back to the heap. */
  method Fclose(fp: Stream, heap: Heap)
    requires fp in heap.live
    modifies heap`live
    ensures heap.live == old(heap.live) - {fp}
  {
    heap.Free(fp);
  }
}
