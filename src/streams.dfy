/**
 * The two C `FILE*` uses of the codec, without real I/O: a file opened for
 * reading is its byte contents plus a cursor that `fseek` sets and `fread`
 * advances; a file opened for writing is the byte sequence appended so far.
 */
module Streams {
  import opened Bytes

  /** `fread` of `n` bytes at `pos` delivers them all: a read of nothing always does. */
  predicate Fits(length: int, pos: int, n: nat) {
    n == 0 || (0 <= pos && pos + n <= length)
  }

  /** The `n` bytes a reader obtains at `off`; reading nothing needs no bytes. */
  function Window(data: seq<uint8>, off: nat, n: nat): (w: seq<uint8>)
    requires Fits(|data|, off, n)
    ensures |w| == n
    ensures n > 0 ==> w == data[off..off + n]
  {
    if n == 0 then [] else data[off..off + n]
  }

  /** Two reads back to back deliver all their bytes exactly when one read of both would. */
  lemma FitsSplit(length: int, pos: nat, a: nat, b: nat)
    ensures Fits(length, pos, a) && Fits(length, pos + a, b) <==> Fits(length, pos, a + b)
  {
  }

  /** A read that delivers all its bytes delivers those of any shorter read. */
  lemma FitsShorter(length: int, pos: nat, a: nat, b: nat)
    requires a <= b && Fits(length, pos, b)
    ensures Fits(length, pos, a)
  {
  }

  /** The bytes of two reads back to back are those of one read of both. */
  lemma WindowSplit(data: seq<uint8>, pos: nat, a: nat, b: nat)
    requires Fits(|data|, pos, a + b)
    ensures Fits(|data|, pos, a) && Fits(|data|, pos + a, b)
    ensures Window(data, pos, a + b) == Window(data, pos, a) + Window(data, pos + a, b)
  {
  }

  /** The bytes of three reads back to back are those of one read of all three. */
  lemma WindowSplit3(data: seq<uint8>, pos: nat, a: nat, b: nat, c: nat)
    requires Fits(|data|, pos, a + (b + c))
    ensures Fits(|data|, pos, a) && Fits(|data|, pos + a, b) && Fits(|data|, pos + a + b, c)
    ensures Window(data, pos, a + (b + c)) == Window(data, pos, a) + Window(data, pos + a, b) + Window(data, pos + a + b, c)
  {
    FitsSplit(|data|, pos, a, b + c);
    FitsSplit(|data|, pos + a, b, c);
    var first, second, third := Window(data, pos, a), Window(data, pos + a, b), Window(data, pos + a + b, c);
    var rest := Window(data, pos + a, b + c);
    assert Window(data, pos, a + (b + c)) == first + rest by {
      WindowSplit(data, pos, a, b + c);
    }
    assert rest == second + third by {
      WindowSplit(data, pos + a, b, c);
    }
    Regroup(Window(data, pos, a + (b + c)), first, rest, second, third);
  }

  /** A sequence made of a head and a rest, the rest made of two parts, is the three parts in order. */
  lemma Regroup<T>(whole: seq<T>, head: seq<T>, rest: seq<T>, second: seq<T>, third: seq<T>)
    requires whole == head + rest && rest == second + third
    ensures whole == head + second + third
  {
    AppendAssoc(head, second, third);
  }

  /** Blocks read back to back, one more block read after them: the window grows by that block. */
  lemma NextBlock(data: seq<uint8>, first: nat, blocks: seq<seq<uint8>>, block: seq<uint8>)
    requires Fits(|data|, first, |Concat(blocks)|) && Window(data, first, |Concat(blocks)|) == Concat(blocks)
    requires Fits(|data|, first + |Concat(blocks)|, |block|)
    requires block == Window(data, first + |Concat(blocks)|, |block|)
    ensures Concat(blocks + [block]) == Concat(blocks) + block
    ensures Fits(|data|, first, |Concat(blocks + [block])|)
    ensures Window(data, first, |Concat(blocks + [block])|) == Concat(blocks + [block])
  {
    ConcatPush(blocks, block);
    var n := |Concat(blocks)|;
    FitsSplit(|data|, first, n, |block|);
    WindowSplit(data, first, n, |block|);
    assert |Concat(blocks + [block])| == n + |block|;
  }

  /** What is left of `data` from `pos` on. */
  function Rest(data: seq<uint8>, pos: nat): (r: seq<uint8>)
    ensures |r| == if pos < |data| then |data| - pos else 0
  {
    if pos < |data| then data[pos..] else []
  }

  /** A file opened with "rb". */
  class NexStream {
    const data: seq<uint8>
    var pos: nat

    /** `fopen`: the cursor starts at the first byte. */
    constructor Open(contents: seq<uint8>)
      ensures data == contents && pos == 0
    {
      data := contents;
      pos := 0;
    }

    /**
     * `fseek(fp, offset, SEEK_SET)`: fails on a negative offset and leaves the
     * cursor where it was; an offset past the end is allowed.
     */
    method Seek(offset: int) returns (ok: bool)
      modifies this
      ensures ok == (offset >= 0)
      ensures pos == if ok then offset else old(pos)
    {
      ok := offset >= 0;
      if ok {
        pos := offset;
      }
    }

    /**
     * `fread` of `n` bytes. When they are all there it returns them and moves
     * the cursor past them; otherwise it reports a short read, returns what
     * was there (nothing when the cursor is past the end) and advances the
     * cursor past the bytes it returned.
     */
    method Read(n: nat) returns (ok: bool, b: seq<uint8>)
      modifies this
      ensures ok == Fits(|data|, old(pos), n)
      ensures ok ==> |b| == n && pos == old(pos) + n
      ensures ok ==> b == Window(data, old(pos), n)
      ensures !ok ==> |b| < n && b == Rest(data, old(pos)) && pos == old(pos) + |b|
    {
      ok := Fits(|data|, pos, n);
      if ok {
        b := if n == 0 then [] else data[pos..pos + n];
        pos := pos + n;
      } else {
        b := Rest(data, pos);
        pos := pos + |b|;
      }
    }
  }

  /** A file opened with "wb": everything `fwrite` has appended. */
  class OutputFile {
    var bytes: seq<uint8>

    /** `fopen(path, "wb")` truncates the file. */
    constructor Create()
      ensures bytes == []
    {
      bytes := [];
    }

    /** `fwrite`: appends `b`. */
    method Write(b: seq<uint8>)
      modifies this
      ensures bytes == old(bytes) + b
    {
      bytes := bytes + b;
    }
  }
}
