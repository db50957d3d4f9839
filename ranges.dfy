/**
 * The byte-range bookkeeping of `_Response::sendFile(const File &, Options *)`
 * (src/response.cpp:244-270): the ranges `_Request::rangeParse` produced are
 * clamped to the file, their lengths summed into `Content-Length`, and the
 * kept list rendered into `Content-Range`. Ranges are inclusive
 * `[start, end]` byte intervals, as in section 2.1 of RFC 7233.
 */
module Ranges {

  import opened Native

  datatype ByteRange = ByteRange(start: Size, end: Size)

  /** Position of the first range whose `end` exceeds `fileSize`; `|rs|` when there is none. */
  function FirstOver(rs: seq<ByteRange>, fileSize: Size): (k: nat)
    ensures k <= |rs|
    ensures k < |rs| ==> rs[k].end > fileSize
    ensures forall j :: 0 <= j < k ==> rs[j].end <= fileSize
  {
    if rs == [] then 0
    else if rs[0].end > fileSize then 0
    else 1 + FirstOver(rs[1..], fileSize)
  }

  /** The ranges sendFile keeps, as written (see `ClampPrefix`). */
  function Clamp(rs: seq<ByteRange>, fileSize: Size): seq<ByteRange> {
    if rs == [] then []
    else if rs[0].end > fileSize then [ByteRange(rs[0].start, SubWrap(fileSize, 1))]
    else [rs[0]] + Clamp(rs[1..], fileSize)
  }

  /**
   * sendFile keeps the in-order prefix of `rs` up to and including the first
   * range whose `end > fileSize`; that range's end becomes `fileSize - 1` in
   * `size_t` arithmetic, and every start is kept.
   */
  lemma {:induction false} ClampPrefix(rs: seq<ByteRange>, fileSize: Size)
    ensures var n := FirstOver(rs, fileSize);
      var kept := Clamp(rs, fileSize);
      && |kept| == (if n < |rs| then n + 1 else |rs|)
      && (forall i :: 0 <= i < n ==> kept[i] == rs[i])
      && (n < |rs| ==> kept[n] == ByteRange(rs[n].start, SubWrap(fileSize, 1)))
  {
    if rs != [] && rs[0].end <= fileSize {
      ClampPrefix(rs[1..], fileSize);
    }
  }

  /** `end - start + 1` in `size_t` arithmetic. */
  function RangeLen(r: ByteRange): Size {
    AddWrap(SubWrap(r.end, r.start), 1)
  }

  /** `sum += (end - start + 1)` over `rs` in order, in `size_t` arithmetic. */
  function WrappedSum(rs: seq<ByteRange>): Size {
    if rs == [] then 0 else AddWrap(WrappedSum(rs[..|rs| - 1]), RangeLen(rs[|rs| - 1]))
  }

  /** The length of an inclusive range, in unbounded arithmetic. */
  function Length(r: ByteRange): int {
    r.end - r.start + 1
  }

  /** Σ (end − start + 1) over `rs`, in unbounded arithmetic. */
  function SumLengths(rs: seq<ByteRange>): int {
    if rs == [] then 0 else SumLengths(rs[..|rs| - 1]) + Length(rs[|rs| - 1])
  }

  predicate Ordered(rs: seq<ByteRange>) {
    forall i :: 0 <= i < |rs| ==> rs[i].start <= rs[i].end
  }

  /**
   * sendFile's clamping loop (src/response.cpp:249-261): the kept ranges and
   * the `Content-Length` sum.
   */
  method ClampRanges(rs: seq<ByteRange>, fileSize: Size) returns (kept: seq<ByteRange>, sum: Size)
    ensures kept == Clamp(rs, fileSize)
    ensures sum == WrappedSum(kept)
  {
    sum := 0;
    kept := [];
    var k := 0;
    while k < |rs|
      invariant k <= |rs|
      invariant kept + Clamp(rs[k..], fileSize) == Clamp(rs, fileSize)
      invariant sum == WrappedSum(kept)
    {
      var start, end := rs[k].start, rs[k].end;
      var cont := end > fileSize;
      end := if end > fileSize then SubWrap(fileSize, 1) else end;
      ClampStep(rs, k, fileSize);
      WrappedSumSnoc(kept, ByteRange(start, end));
      sum := AddWrap(sum, RangeLen(ByteRange(start, end)));
      kept := kept + [ByteRange(start, end)];
      if cont {
        return;
      }
      k := k + 1;
    }
    assert rs[k..] == [];
  }

  lemma ClampStep(rs: seq<ByteRange>, k: nat, fileSize: Size)
    requires k < |rs|
    ensures Clamp(rs[k..], fileSize) ==
      if rs[k].end > fileSize then [ByteRange(rs[k].start, SubWrap(fileSize, 1))]
      else [rs[k]] + Clamp(rs[k + 1..], fileSize)
  {
    assert rs[k..][1..] == rs[k + 1..];
  }

  lemma WrappedSumSnoc(rs: seq<ByteRange>, r: ByteRange)
    ensures WrappedSum(rs + [r]) == AddWrap(WrappedSum(rs), RangeLen(r))
  {
    assert (rs + [r])[..|rs|] == rs;
  }

  /** When every range is ordered and the total fits in `size_t`, the wrapped sum is the exact sum. */
  lemma {:induction false} WrappedSumExact(rs: seq<ByteRange>)
    requires Ordered(rs)
    requires SumLengths(rs) < Limit
    ensures WrappedSum(rs) == SumLengths(rs)
  {
    if rs != [] {
      var init := rs[..|rs| - 1];
      assert Ordered(init) by {
        forall i | 0 <= i < |init| ensures init[i].start <= init[i].end {
          assert init[i] == rs[i];
        }
      }
      WrappedSumExact(init);
    }
  }

  /** Every range that `Clamp` leaves untouched ends at or before `fileSize`. */
  lemma ClampedEnds(rs: seq<ByteRange>, fileSize: Size)
    requires 0 < fileSize
    ensures forall i :: 0 <= i < |Clamp(rs, fileSize)| ==> Clamp(rs, fileSize)[i].end <= fileSize
  {
  }

  /**
   * For a non-empty file and ordered ranges whose total fits, `Content-Length`
   * is Σ(end − start + 1) over the kept ranges and every kept range is
   * ordered and ends at or before `fileSize`.
   */
  lemma ClampedContentLength(rs: seq<ByteRange>, fileSize: Size)
    requires 0 < fileSize && Ordered(rs)
    requires SumLengths(Clamp(rs, fileSize)) < Limit
    requires forall i :: 0 <= i < |rs| ==> rs[i].start < fileSize
    ensures Ordered(Clamp(rs, fileSize))
    ensures WrappedSum(Clamp(rs, fileSize)) == SumLengths(Clamp(rs, fileSize))
  {
    var kept := Clamp(rs, fileSize);
    ClampPrefix(rs, fileSize);
    assert Ordered(kept) by {
      var n := FirstOver(rs, fileSize);
      forall i | 0 <= i < |kept| ensures kept[i].start <= kept[i].end {
        if i < n {
          assert kept[i] == rs[i];
        } else {
          assert kept[i].start == rs[n].start;
        }
      }
    }
    WrappedSumExact(kept);
  }

  // ---------------------------------------------------------------------
  // Content-Range

  /**
   * Stand-in for the range's `toString()`, which is not part of this model:
   * "bytes=" followed by the `start-end` pairs separated by commas.
   */
  function RangeText(rs: seq<ByteRange>): string {
    "bytes=" + RangeSpecs(rs)
  }

  function RangeSpecs(rs: seq<ByteRange>): string {
    if rs == [] then ""
    else
      var spec := Decimal(rs[0].start) + "-" + Decimal(rs[0].end);
      if |rs| == 1 then spec else spec + "," + RangeSpecs(rs[1..])
  }

  /** The `Content-Range` value: the rendered ranges, "/", and the file size. */
  function ContentRange(rs: seq<ByteRange>, fileSize: Size): string {
    RangeText(rs) + "/" + Decimal(fileSize)
  }

  // ---------------------------------------------------------------------
  // The clamp as evidently intended (section 2.1 of RFC 7233: a last-byte-pos
  // at or beyond the length is replaced by length - 1; a range whose
  // first-byte-pos is at or beyond the length is unsatisfiable).

  /**
   * Like `Clamp`, but a range reaching `fileSize` (not only beyond it) is
   * clamped, and a range starting at or beyond `fileSize` is dropped, so an
   * empty file keeps nothing (answered with 416 by section 4.4 of RFC 7233).
   */
  function ClampFixed(rs: seq<ByteRange>, fileSize: Size): (kept: seq<ByteRange>)
    ensures forall i :: 0 <= i < |kept| ==> kept[i].start < fileSize && kept[i].end < fileSize
    ensures Ordered(rs) ==> Ordered(kept)
    ensures |kept| <= |rs|
    ensures Derived(kept, rs, fileSize)
    ensures Ordered(rs) && (forall i :: 0 <= i < |rs| ==> rs[i].end < fileSize) ==> kept == rs
  {
    if rs == [] then []
    else if rs[0].start >= fileSize then ClampFixed(rs[1..], fileSize)
    else if rs[0].end >= fileSize then [ByteRange(rs[0].start, fileSize - 1)]
    else [rs[0]] + ClampFixed(rs[1..], fileSize)
  }

  /** `k` is `r`, or `r` with its end lowered to `fileSize - 1` because it reached past the file. */
  predicate Lowered(k: ByteRange, r: ByteRange, fileSize: Size) {
    k.start == r.start && (k.end == r.end || (r.end >= fileSize && k.end + 1 == fileSize))
  }

  /**
   * `kept` is drawn from `rs` in order: each kept range is an input range,
   * possibly lowered, and distinct kept ranges come from distinct input
   * ranges in their input order. Nothing is invented.
   */
  predicate Derived(kept: seq<ByteRange>, rs: seq<ByteRange>, fileSize: Size)
    decreases |rs|
  {
    if kept == [] then true
    else if rs == [] then false
    else
      (Lowered(kept[0], rs[0], fileSize) && Derived(kept[1..], rs[1..], fileSize))
      || Derived(kept, rs[1..], fileSize)
  }

  /**
   * With the corrected clamp the length sum is bounded by the number of kept
   * ranges times the file size, so it fits in `size_t` whenever that product
   * does.
   */
  lemma {:induction false} ClampFixedSumBounded(rs: seq<ByteRange>, fileSize: Size)
    requires Ordered(rs)
    ensures 0 <= SumLengths(ClampFixed(rs, fileSize)) <= |ClampFixed(rs, fileSize)| * fileSize
  {
    var kept := ClampFixed(rs, fileSize);
    SumLengthsBounded(kept, fileSize);
  }

  lemma {:induction false} SumLengthsBounded(rs: seq<ByteRange>, bound: nat)
    requires Ordered(rs)
    requires forall i :: 0 <= i < |rs| ==> rs[i].end < bound
    ensures 0 <= SumLengths(rs) <= |rs| * bound
  {
    if rs != [] {
      var init := rs[..|rs| - 1];
      assert forall i :: 0 <= i < |init| ==> init[i] == rs[i];
      SumLengthsBounded(init, bound);
    }
  }

  // ---------------------------------------------------------------------
  // Where the code as written departs from that intent.

  /**
   * A range ending exactly at `fileSize` is not clamped: for a 10-byte file
   * and `bytes=0-10`, the kept range is `0-10`, `Content-Length` is 11 and
   * `Content-Range` names byte 10, one past the last byte of the file.
   */
  lemma ClampKeepsEndAtFileSize()
    ensures Clamp([ByteRange(0, 10)], 10) == [ByteRange(0, 10)]
    ensures WrappedSum(Clamp([ByteRange(0, 10)], 10)) == 11
    ensures ClampFixed([ByteRange(0, 10)], 10) == [ByteRange(0, 9)]
  {
    assert [ByteRange(0, 10)][1..] == [];
  }

  /**
   * For an empty file `fileSize - 1` wraps: `bytes=0-5` is kept as
   * `0-(Limit - 1)` and the wrapped `Content-Length` sum is 0.
   */
  lemma ClampEmptyFileWraps()
    ensures Clamp([ByteRange(0, 5)], 0) == [ByteRange(0, Limit - 1)]
    ensures WrappedSum(Clamp([ByteRange(0, 5)], 0)) == 0
    ensures ClampFixed([ByteRange(0, 5)], 0) == []
  {
    assert [ByteRange(0, 5)][1..] == [];
    var kept := [ByteRange(0, Limit - 1)];
    assert kept[..0] == [];
  }
}
