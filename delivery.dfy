/**
 * The default renderer `_Response::renderFile` (src/response.cpp:44-86): it
 * streams a NUL-terminated buffer to the client in chunks of at most
 * `maxChunkLen` bytes, either over the whole buffer or over each range of
 * the request's `Range` header, and passes every chunk to an optional
 * observer callback before writing it.
 *
 * A chunk is recorded by its offset into the buffer and its length; the
 * buffer itself is `f + ['\0']`, the C string and its terminator.
 */
module Delivery {

  import opened Wrappers
  import opened Native
  import opened Ranges
  import opened Wire

  const MaxChunkLen: nat := 2048

  datatype Chunk = Chunk(offset: nat, length: nat)

  /**
   * The chunks renderFile's loop writes from offset `i` while `i < end`.
   * Both paths use this arithmetic: a full chunk while `i + maxChunkLen <= end`,
   * otherwise `end - i + 1` bytes. Neither `i + maxChunkLen` nor `i += remaining`
   * is wrapped here. Both wrap in `size_t` only for an `end` within 2048 of
   * `Limit`, such as the `Limit - 1` the empty-file clamp produces: there the
   * code's `i` wraps back to 0 and its loop never stops, while this model
   * ends after the chunk that reaches `end + 1`.
   */
  function Chunks(i: nat, end: nat): seq<Chunk>
    decreases end - i
  {
    if i >= end then []
    else
      var remaining := if i + MaxChunkLen <= end then MaxChunkLen else end - i + 1;
      [Chunk(i, remaining)] + Chunks(i + remaining, end)
  }

  /** The chunks of every range, range after range in list order. */
  function RangeChunks(rs: seq<ByteRange>): seq<Chunk> {
    if rs == [] then []
    else RangeChunks(rs[..|rs| - 1]) + Chunks(rs[|rs| - 1].start, rs[|rs| - 1].end)
  }

  /** What renderFile plans to write: the ranges when a `range` header is present, else the whole string. */
  function Planned(n: nat, range: Option<seq<ByteRange>>): seq<Chunk> {
    match range
    case Some(rs) => RangeChunks(rs)
    case None => Chunks(0, n)
  }

  /** The transport entries for `cs`: each chunk is observed (when there is an observer) and then written. */
  function Emit(cs: seq<Chunk>, observed: bool): seq<Out> {
    if cs == [] then []
    else
      (if observed then [Observe(cs[0].offset, cs[0].length)] else [])
      + [Write(cs[0].offset, cs[0].length)] + Emit(cs[1..], observed)
  }

  /** Number of bytes the chunks write. */
  function Total(cs: seq<Chunk>): nat {
    if cs == [] then 0 else cs[0].length + Total(cs[1..])
  }

  /** `cs` writes exactly the offsets `[from, to)`, back to back, in chunks of 1 to `MaxChunkLen` bytes. */
  predicate Consecutive(cs: seq<Chunk>, from: nat, to: nat)
    decreases |cs|
  {
    if cs == [] then from == to
    else
      && 0 < cs[0].length <= MaxChunkLen
      && cs[0].offset == from
      && Consecutive(cs[1..], from + cs[0].length, to)
  }

  /** Every chunk of `cs` lies inside a buffer of `size` bytes. */
  predicate InBounds(cs: seq<Chunk>, size: nat) {
    forall k :: 0 <= k < |cs| ==> cs[k].offset + cs[k].length <= size
  }

  /** The bytes `cs` sends from `buf`. */
  function Sent(cs: seq<Chunk>, buf: seq<char>): seq<char>
    requires InBounds(cs, |buf|)
  {
    if cs == [] then [] else buf[cs[0].offset..cs[0].offset + cs[0].length] + Sent(cs[1..], buf)
  }

  // ---------------------------------------------------------------------
  // renderFile

  /**
   * renderFile(client, options, f, callback). `range` is what
   * `_Request::rangeParse` yields for the `range` option header, `None` when
   * there are no options or no such header; `observed` says whether a
   * callback was passed.
   */
  method RenderFile(f: CStr, range: Option<seq<ByteRange>>, observed: bool) returns (out: seq<Out>)
    ensures out == Emit(Planned(|f|, range), observed)
  {
    if range.Some? {
      var rs := range.value;
      out := [];
      for k := 0 to |rs|
        invariant out == Emit(RangeChunks(rs[..k]), observed)
      {
        var part := WriteChunks(rs[k].start, rs[k].end, observed);
        assert rs[..k + 1][..k] == rs[..k];
        EmitAppend(RangeChunks(rs[..k]), Chunks(rs[k].start, rs[k].end), observed);
        out := out + part;
      }
      assert rs[..|rs|] == rs;
      return;
    }
    out := WriteChunks(0, |f|, observed);
  }

  /** The `while (i < end)` loop both paths of renderFile run, from `i = start`. */
  method WriteChunks(start: nat, end: nat, observed: bool) returns (out: seq<Out>)
    ensures out == Emit(Chunks(start, end), observed)
  {
    out := [];
    var i := start;
    while i < end
      invariant out + Emit(Chunks(i, end), observed) == Emit(Chunks(start, end), observed)
    {
      var remaining := if i + MaxChunkLen <= end then MaxChunkLen else end - i + 1;
      var step := (if observed then [Observe(i, remaining)] else []) + [Write(i, remaining)];
      EmitStep(i, end, observed);
      Associative(out, step, Emit(Chunks(i + remaining, end), observed));
      out := out + step;
      i := i + remaining;
    }
  }

  lemma EmitStep(i: nat, end: nat, observed: bool)
    requires i < end
    ensures var remaining := if i + MaxChunkLen <= end then MaxChunkLen else end - i + 1;
      Emit(Chunks(i, end), observed) ==
        (if observed then [Observe(i, remaining)] else []) + [Write(i, remaining)]
        + Emit(Chunks(i + remaining, end), observed)
  {
    var remaining := if i + MaxChunkLen <= end then MaxChunkLen else end - i + 1;
    assert Chunks(i, end)[1..] == Chunks(i + remaining, end);
  }

  lemma {:induction false} EmitAppend(a: seq<Chunk>, b: seq<Chunk>, observed: bool)
    ensures Emit(a + b, observed) == Emit(a, observed) + Emit(b, observed)
  {
    if a == [] {
      assert a + b == b;
    } else {
      assert (a + b)[0] == a[0];
      assert (a + b)[1..] == a[1..] + b;
      EmitAppend(a[1..], b, observed);
    }
  }

  /**
   * With an observer, entry `2k` observes chunk `k` and entry `2k + 1` writes
   * the same bytes: the callback always sees exactly the following write.
   */
  lemma {:induction false} EmitObserved(cs: seq<Chunk>)
    ensures |Emit(cs, true)| == 2 * |cs|
    ensures forall k :: 0 <= k < |cs| ==>
      Emit(cs, true)[2 * k] == Observe(cs[k].offset, cs[k].length) &&
      Emit(cs, true)[2 * k + 1] == Write(cs[k].offset, cs[k].length)
  {
    if cs != [] {
      EmitObserved(cs[1..]);
      var e := Emit(cs, true);
      forall k | 0 < k < |cs|
        ensures e[2 * k] == Observe(cs[k].offset, cs[k].length)
        ensures e[2 * k + 1] == Write(cs[k].offset, cs[k].length)
      {
        assert cs[1..][k - 1] == cs[k];
        assert e[2 * k] == Emit(cs[1..], true)[2 * (k - 1)];
        assert e[2 * k + 1] == Emit(cs[1..], true)[2 * (k - 1) + 1];
      }
    }
  }

  /** Without an observer, entry `k` writes chunk `k`. */
  lemma {:induction false} EmitUnobserved(cs: seq<Chunk>)
    ensures |Emit(cs, false)| == |cs|
    ensures forall k :: 0 <= k < |cs| ==> Emit(cs, false)[k] == Write(cs[k].offset, cs[k].length)
  {
    if cs != [] {
      EmitUnobserved(cs[1..]);
      var e := Emit(cs, false);
      forall k | 0 < k < |cs| ensures e[k] == Write(cs[k].offset, cs[k].length) {
        assert cs[1..][k - 1] == cs[k];
      }
    }
  }

  /** Every entry renderFile produces is an observation or a write. */
  lemma {:induction false} EmitIsBody(cs: seq<Chunk>, observed: bool)
    ensures forall k :: 0 <= k < |Emit(cs, observed)| ==> IsBody(Emit(cs, observed)[k])
  {
    if cs != [] {
      EmitIsBody(cs[1..], observed);
    }
  }

  // ---------------------------------------------------------------------
  // What the loop covers

  /** Where the loop from `i` stops writing: `end` when `end - i` is a multiple of the chunk size, else `end + 1`. */
  function Reach(i: nat, end: nat): nat {
    if i >= end then i
    else if (end - i) % MaxChunkLen == 0 then end
    else end + 1
  }

  /** The loop from `i` writes the offsets `[i, Reach(i, end))` back to back. */
  lemma {:induction false} ChunksConsecutive(i: nat, end: nat)
    ensures Consecutive(Chunks(i, end), i, Reach(i, end))
    decreases end - i
  {
    if i < end {
      var remaining := if i + MaxChunkLen <= end then MaxChunkLen else end - i + 1;
      ChunksConsecutive(i + remaining, end);
      if i + MaxChunkLen <= end && i + MaxChunkLen < end {
        assert (end - (i + MaxChunkLen)) % MaxChunkLen == (end - i) % MaxChunkLen;
      }
      assert Chunks(i, end)[1..] == Chunks(i + remaining, end);
    }
  }

  lemma {:induction false} ConsecutiveTotal(cs: seq<Chunk>, from: nat, to: nat)
    requires Consecutive(cs, from, to)
    ensures from <= to && Total(cs) == to - from
    ensures forall k :: 0 <= k < |cs| ==> from <= cs[k].offset && cs[k].offset + cs[k].length <= to
    decreases |cs|
  {
    if cs != [] {
      ConsecutiveTotal(cs[1..], from + cs[0].length, to);
      forall k | 0 < k < |cs| ensures from <= cs[k].offset && cs[k].offset + cs[k].length <= to {
        assert cs[1..][k - 1] == cs[k];
      }
    }
  }

  /** Chunks that cover `[from, to)` back to back send exactly `buf[from..to]`. */
  lemma {:induction false} ConsecutiveSent(cs: seq<Chunk>, from: nat, to: nat, buf: seq<char>)
    requires Consecutive(cs, from, to) && to <= |buf|
    ensures InBounds(cs, |buf|)
    ensures from <= to && Sent(cs, buf) == buf[from..to]
    decreases |cs|
  {
    ConsecutiveTotal(cs, from, to);
    if cs != [] {
      ConsecutiveSent(cs[1..], from + cs[0].length, to, buf);
      assert buf[from..to] == buf[from..from + cs[0].length] + buf[from + cs[0].length..to];
    }
  }

  /**
   * Without a range, renderFile writes offsets `[0, n)` when `n = strlen(f)`
   * is a multiple of 2048 (nothing when `n = 0`) and `[0, n]` otherwise: the
   * last chunk, `end - i + 1` bytes long, includes the NUL terminator.
   */
  lemma WholeFileWrites(f: CStr)
    ensures var n := |f|;
      Consecutive(Chunks(0, n), 0, if n % MaxChunkLen == 0 then n else n + 1)
    ensures InBounds(Chunks(0, |f|), |f| + 1)
    ensures |f| % MaxChunkLen == 0 ==> Sent(Chunks(0, |f|), f + ['\0']) == f
    ensures |f| % MaxChunkLen != 0 ==> Sent(Chunks(0, |f|), f + ['\0']) == f + ['\0']
  {
    var n := |f|;
    var buf := f + ['\0'];
    ChunksConsecutive(0, n);
    ConsecutiveSent(Chunks(0, n), 0, Reach(0, n), buf);
    assert buf[..n] == f;
  }

  /**
   * Bytes written without a range against the `Content-Length` of
   * strlen(f) set at src/response.cpp:278: they agree exactly when 2048
   * divides the length; otherwise one byte more is written.
   */
  lemma WholeFileLength(n: nat)
    ensures Total(Chunks(0, n)) == if n % MaxChunkLen == 0 then n else n + 1
  {
    ChunksConsecutive(0, n);
    ConsecutiveTotal(Chunks(0, n), 0, Reach(0, n));
  }

  /**
   * One range `[start, end]`: renderFile writes offsets `[start, end]` when
   * `(end - start) mod 2048 != 0`, only `[start, end - 1]` when it is 0, and
   * nothing at all when `end <= start` (so `start == end` writes nothing).
   */
  lemma RangeWrites(r: ByteRange)
    ensures r.end <= r.start ==> Chunks(r.start, r.end) == []
    ensures r.start < r.end && (r.end - r.start) % MaxChunkLen != 0 ==>
      Consecutive(Chunks(r.start, r.end), r.start, r.end + 1)
    ensures r.start < r.end && (r.end - r.start) % MaxChunkLen == 0 ==>
      Consecutive(Chunks(r.start, r.end), r.start, r.end)
  {
    ChunksConsecutive(r.start, r.end);
  }

  /** Number of ranges whose last byte the loop skips: `(end - start) mod 2048 == 0`. */
  function Short(rs: seq<ByteRange>): nat {
    if rs == [] then 0
    else Short(rs[..|rs| - 1]) + (if (rs[|rs| - 1].end - rs[|rs| - 1].start) % MaxChunkLen == 0 then 1 else 0)
  }

  lemma {:induction false} TotalAppend(a: seq<Chunk>, b: seq<Chunk>)
    ensures Total(a + b) == Total(a) + Total(b)
  {
    if a == [] {
      assert a + b == b;
    } else {
      assert (a + b)[0] == a[0];
      assert (a + b)[1..] == a[1..] + b;
      TotalAppend(a[1..], b);
    }
  }

  /**
   * With ranges, the bytes written fall short of the `Content-Length`
   * Σ(end − start + 1) set at src/response.cpp:268 by one for every range
   * with `(end - start) mod 2048 == 0`, and by nothing else.
   */
  lemma {:induction false} RangeLength(rs: seq<ByteRange>)
    requires Ordered(rs)
    ensures Total(RangeChunks(rs)) + Short(rs) == SumLengths(rs)
  {
    if rs != [] {
      var init, r := rs[..|rs| - 1], rs[|rs| - 1];
      assert Ordered(init) by {
        forall i | 0 <= i < |init| ensures init[i].start <= init[i].end {
          assert init[i] == rs[i];
        }
      }
      RangeLength(init);
      TotalAppend(RangeChunks(init), Chunks(r.start, r.end));
      OneRangeLength(r);
    }
  }

  lemma OneRangeLength(r: ByteRange)
    requires r.start <= r.end
    ensures Total(Chunks(r.start, r.end)) + (if (r.end - r.start) % MaxChunkLen == 0 then 1 else 0) == Length(r)
  {
    ChunksConsecutive(r.start, r.end);
    ConsecutiveTotal(Chunks(r.start, r.end), r.start, Reach(r.start, r.end));
  }

  // ---------------------------------------------------------------------
  // The loop as evidently intended: chunks over the half-open `[i, stop)`.

  /** Chunks of `[i, stop)`: a full chunk while one fits, then the `stop - i` bytes left. */
  function FixedChunks(i: nat, stop: nat): seq<Chunk>
    decreases stop - i
  {
    if i >= stop then []
    else
      var remaining := if i + MaxChunkLen <= stop then MaxChunkLen else stop - i;
      [Chunk(i, remaining)] + FixedChunks(i + remaining, stop)
  }

  /** The corrected loop writes exactly `[i, stop)`, in chunks of at most 2048 bytes. */
  lemma {:induction false} FixedChunksConsecutive(i: nat, stop: nat)
    requires i <= stop
    ensures Consecutive(FixedChunks(i, stop), i, stop)
    decreases stop - i
  {
    if i < stop {
      var remaining := if i + MaxChunkLen <= stop then MaxChunkLen else stop - i;
      FixedChunksConsecutive(i + remaining, stop);
      assert FixedChunks(i, stop)[1..] == FixedChunks(i + remaining, stop);
    }
  }

  /** The corrected ranges: each inclusive range as the half-open `[start, end + 1)`. */
  function FixedRangeChunks(rs: seq<ByteRange>): seq<Chunk> {
    if rs == [] then []
    else FixedRangeChunks(rs[..|rs| - 1]) + FixedChunks(rs[|rs| - 1].start, rs[|rs| - 1].end + 1)
  }

  /** Without a range, the corrected loop sends the string and not its terminator: `Content-Length` bytes. */
  lemma FixedWholeFile(f: CStr)
    ensures Total(FixedChunks(0, |f|)) == |f|
    ensures InBounds(FixedChunks(0, |f|), |f| + 1)
    ensures Sent(FixedChunks(0, |f|), f + ['\0']) == f
  {
    FixedChunksConsecutive(0, |f|);
    ConsecutiveTotal(FixedChunks(0, |f|), 0, |f|);
    ConsecutiveSent(FixedChunks(0, |f|), 0, |f|, f + ['\0']);
    assert (f + ['\0'])[0..|f|] == f;
  }

  /**
   * With the corrected clamp and loop, the bytes written equal the
   * `Content-Length` Σ(end − start + 1) of the kept ranges, and every chunk
   * lies inside the file.
   */
  lemma {:induction false} FixedRangeDelivery(rs: seq<ByteRange>, fileSize: Size)
    requires Ordered(rs)
    ensures var kept := ClampFixed(rs, fileSize);
      && Total(FixedRangeChunks(kept)) == SumLengths(kept)
      && InBounds(FixedRangeChunks(kept), fileSize)
  {
    var kept := ClampFixed(rs, fileSize);
    FixedRangesInside(kept, fileSize);
  }

  lemma {:induction false} FixedRangesInside(rs: seq<ByteRange>, fileSize: nat)
    requires Ordered(rs)
    requires forall i :: 0 <= i < |rs| ==> rs[i].end < fileSize
    ensures Total(FixedRangeChunks(rs)) == SumLengths(rs)
    ensures InBounds(FixedRangeChunks(rs), fileSize)
  {
    if rs != [] {
      var init, r := rs[..|rs| - 1], rs[|rs| - 1];
      assert forall i :: 0 <= i < |init| ==> init[i] == rs[i];
      FixedRangesInside(init, fileSize);
      var a, b := FixedRangeChunks(init), FixedChunks(r.start, r.end + 1);
      TotalAppend(a, b);
      OneFixedRange(r, fileSize);
      InBoundsAppend(a, b, fileSize);
    }
  }

  lemma OneFixedRange(r: ByteRange, fileSize: nat)
    requires r.start <= r.end < fileSize
    ensures Total(FixedChunks(r.start, r.end + 1)) == Length(r)
    ensures InBounds(FixedChunks(r.start, r.end + 1), fileSize)
  {
    FixedChunksConsecutive(r.start, r.end + 1);
    ConsecutiveTotal(FixedChunks(r.start, r.end + 1), r.start, r.end + 1);
  }

  lemma InBoundsAppend(a: seq<Chunk>, b: seq<Chunk>, size: nat)
    requires InBounds(a, size) && InBounds(b, size)
    ensures InBounds(a + b, size)
  {
    forall k | 0 <= k < |a + b| ensures (a + b)[k].offset + (a + b)[k].length <= size {
      if k >= |a| {
        assert (a + b)[k] == b[k - |a|];
      }
    }
  }

  // ---------------------------------------------------------------------
  // Inputs on which the code as written and its headers disagree.

  /**
   * A 5-byte string without a range: `Content-Length` is 5 but one chunk of
   * 6 bytes is written, the NUL terminator included; the corrected loop
   * writes 5.
   */
  lemma WholeFileOffByOne()
    ensures Chunks(0, 5) == [Chunk(0, 6)]
    ensures FixedChunks(0, 5) == [Chunk(0, 5)]
  {
  }

  /**
   * The range `0-0` announces one byte (Σ(end − start + 1) = 1) but the
   * `i < end` guard writes none; `0-2048` announces 2049 and writes 2048.
   * The corrected loop writes 1 and 2049.
   */
  lemma RangeDropsLastByte()
    ensures Chunks(0, 0) == [] && SumLengths([ByteRange(0, 0)]) == 1
    ensures Chunks(0, 2048) == [Chunk(0, 2048)] && SumLengths([ByteRange(0, 2048)]) == 2049
    ensures FixedChunks(0, 1) == [Chunk(0, 1)]
    ensures Total(FixedChunks(0, 2049)) == 2049
  {
    assert [ByteRange(0, 0)][..0] == [];
    assert [ByteRange(0, 2048)][..0] == [];
    FixedChunksConsecutive(0, 2049);
    ConsecutiveTotal(FixedChunks(0, 2049), 0, 2049);
  }

  /**
   * For an empty file the wrapped clamp leaves `0-(Limit - 1)`, and
   * the first chunk renderFile writes for it reads 2048 bytes from a buffer
   * holding only the terminator.
   */
  lemma EmptyFileOverread()
    ensures var kept := Clamp([ByteRange(0, 5)], 0);
      |kept| == 1 && Chunks(kept[0].start, kept[0].end)[0] == Chunk(0, 2048)
    ensures 2048 > |"" + ['\0']|
  {
    ClampEmptyFileWraps();
  }

  /**
   * A range starting at or past the end of a non-empty file is kept with an
   * end below its start, and `end - start + 1` wraps: on a 10-byte file
   * `bytes=15-20` is kept as `15-9`, `Content-Length` is `Limit - 5` and
   * nothing is written; `bytes=10-20` is kept as `10-9` with `Content-Length`
   * 0. The corrected clamp drops both ranges.
   */
  lemma RangeStartsPastEnd()
    ensures Clamp([ByteRange(15, 20)], 10) == [ByteRange(15, 9)]
    ensures WrappedSum(Clamp([ByteRange(15, 20)], 10)) == Limit - 5
    ensures Chunks(15, 9) == []
    ensures Clamp([ByteRange(10, 20)], 10) == [ByteRange(10, 9)]
    ensures WrappedSum(Clamp([ByteRange(10, 20)], 10)) == 0
    ensures Chunks(10, 9) == []
    ensures ClampFixed([ByteRange(15, 20)], 10) == [] && ClampFixed([ByteRange(10, 20)], 10) == []
  {
    assert [ByteRange(15, 20)][1..] == [] && [ByteRange(10, 20)][1..] == [];
    assert [ByteRange(15, 9)][..0] == [] && [ByteRange(10, 9)][..0] == [];
  }
}
