/**
 * The template scanner of the template `Response` (src/response.h):
 * `find` looks for a two-character marker, `renderLine_` extracts the keys
 * between `{{` and `}}` on one line, and `render_` walks a view line by line.
 * Spans `[from, to)` index the scanned C string.
 */
module TemplateScan {

  import opened Native

  datatype Span = Span(from: nat, to: nat)

  /** The first index in `[from, tot)` holding `c`, or `tot` when there is none. */
  function FirstFrom(zin: seq<char>, c: char, from: nat, tot: nat): (p: nat)
    requires from <= tot <= |zin|
    ensures from <= p <= tot
    ensures p < tot ==> zin[p] == c
    ensures forall k :: from <= k < p ==> zin[k] != c
    decreases tot - from
  {
    if from == tot then tot
    else if zin[from] == c then from
    else FirstFrom(zin, c, from + 1, tot)
  }

  /** What `find` demands: an in-bounds, NUL-free window and a two-character marker. */
  predicate FindArgs(zin: seq<char>, ss: seq<char>, van: int, tot: int) {
    && |ss| == 2 && '\0' !in ss
    && (van < tot ==> 0 <= van && tot <= |zin|)
    && (forall k :: van <= k < tot && 0 <= k < |zin| ==> zin[k] != '\0')
  }

  /**
   * What `find` returns, in closed form. With `p` the first occurrence of
   * `ss[0]` at or after `van`: when `p > 0` the result is `p + 1` if
   * `ss[1]` follows immediately and -1 otherwise; when `p == 0` (only
   * possible for `van == 0`) the position `w` stays 0, no mismatch stops the
   * loop, and the result is the first `ss[1]` after index 0, adjacent or not.
   */
  function FindResult(zin: seq<char>, ss: seq<char>, van: int, tot: int): (r: int)
    requires FindArgs(zin, ss, van, tot)
    ensures tot <= van ==> r == -1
    ensures r == -1 || van < r < tot
    ensures 0 <= r ==> zin[r] == ss[1]
    ensures 0 <= r ==> FirstFrom(zin, ss[0], van, tot) < r
    ensures 0 <= r && 0 < van ==> zin[r - 1] == ss[0]
  {
    if tot <= van then -1
    else
      var p := FirstFrom(zin, ss[0], van, tot);
      if p == tot then -1
      else if p == 0 then
        var q := FirstFrom(zin, ss[1], 1, tot);
        if q < tot then q else -1
      else if p + 1 < tot && zin[p + 1] == ss[1] then p + 1
      else -1
  }

  /** `find(zin, ss, van, tot)`: the loop over `i` with match count `j` and last match `w`. */
  method Find(zin: seq<char>, ss: seq<char>, van: int, tot: int) returns (r: int)
    requires FindArgs(zin, ss, van, tot)
    ensures r == FindResult(zin, ss, van, tot)
  {
    if tot <= van {
      return -1;
    }
    ghost var p := FirstFrom(zin, ss[0], van, tot);
    var w := 0;
    var j := 0;
    var i := van;
    while i < tot
      invariant van <= i <= tot && 0 <= j <= 2
      invariant j == 0 ==> w == 0 && i <= p
      invariant j == 1 ==> w == p && p < i && (p > 0 ==> i == p + 1)
      invariant j == 1 && p == 0 ==> i <= FirstFrom(zin, ss[1], 1, tot)
      invariant j == 2 ==> 0 < w && i == w + 1 && w == FindResult(zin, ss, van, tot)
    {
      var expected := if j < 2 then ss[j] else '\0';  // ss[2] is the marker's terminator
      if zin[i] == expected {
        j := j + 1;
        w := i;
      } else if w > 0 {
        r := if j == 2 then w else -1;
        return;
      }
      i := i + 1;
    }
    r := if j == 2 then w else -1;
  }

  // ---------------------------------------------------------------------
  // The search as evidently intended.

  /** The marker `ss` occupies positions `k - 1` and `k`. */
  predicate PairAt(zin: seq<char>, ss: seq<char>, k: int)
    requires |ss| == 2
  {
    0 < k < |zin| && zin[k - 1] == ss[0] && zin[k] == ss[1]
  }

  /**
   * The position of the second character of the first occurrence of `ss`
   * inside `[van, tot)`, or -1 when `ss` does not occur there.
   */
  function FindPair(zin: seq<char>, ss: seq<char>, van: nat, tot: nat): (r: int)
    requires |ss| == 2 && tot <= |zin|
    ensures r == -1 || (van < r < tot && PairAt(zin, ss, r))
    ensures r == -1 ==> forall k :: van < k < tot ==> !PairAt(zin, ss, k)
    ensures 0 <= r ==> forall k :: van < k < r ==> !PairAt(zin, ss, k)
    decreases tot - van
  {
    if tot < van + 2 then -1
    else if zin[van] == ss[0] && zin[van + 1] == ss[1] then van + 1
    else FindPair(zin, ss, van + 1, tot)
  }

  /**
   * `find` misses the marker after a lone first character: in "a{b{{" the
   * `{` at 1 is followed by `b`, the loop stops, and the `{{` at 3–4 is not
   * reported. Starting at 0, it also reports a marker that is not there:
   * in "{a{" the `{` at 0 leaves `w` at 0 and the `{` at 2 completes a match.
   */
  lemma FindMissesPair()
    ensures FindResult("a{b{{", "{{", 0, 5) == -1
    ensures FindPair("a{b{{", "{{", 0, 5) == 4
    ensures FindResult("{a{", "{{", 0, 3) == 2
    ensures FindPair("{a{", "{{", 0, 3) == -1
  {
    assert FirstFrom("a{b{{", '{', 0, 5) == 1;
    assert FirstFrom("{a{", '{', 0, 3) == 0;
    assert FirstFrom("{a{", '{', 1, 3) == 2;
  }

  /** Where `find` reports a match with `van > 0`, the marker really is there, and no earlier `ss[0]` exists in the window. */
  lemma FindSoundAfterStart(zin: seq<char>, ss: seq<char>, van: int, tot: int)
    requires FindArgs(zin, ss, van, tot) && 0 < van
    ensures var r := FindResult(zin, ss, van, tot);
      0 <= r ==> PairAt(zin, ss, r) && forall k :: van <= k < r - 1 ==> zin[k] != ss[0]
  {
  }

  // ---------------------------------------------------------------------
  // renderLine_

  /**
   * `s` is a key `renderLine_` extracts from `zin` after `van`: it follows a
   * `{`, is followed by `}}` that ends before `tot`, and holds no `}`.
   */
  predicate KeyAt(zin: seq<char>, s: Span, van: int, tot: int) {
    && 0 < s.from && van < s.from <= s.to && s.to + 1 < tot <= |zin|
    && zin[s.from - 1] == '{'
    && zin[s.to] == '}' && zin[s.to + 1] == '}'
    && forall k :: s.from <= k < s.to ==> zin[k] != '}'
  }

  /**
   * `renderLine_(zin, van, tot, locals)`: the keys it builds, in order. Each
   * lies between a `{` and the `}}` that follows it, and each starts after
   * the `}}` closing the one before.
   */
  method RenderLine(zin: seq<char>, van: int, tot: int) returns (keys: seq<Span>)
    requires FindArgs(zin, "{{", van, tot)
    ensures forall k :: 0 <= k < |keys| ==> KeyAt(zin, keys[k], van, tot)
    ensures forall k :: 0 <= k < |keys| - 1 ==> keys[k].to + 2 < keys[k + 1].from
  {
    keys := [];
    var v := van;
    while v < tot
      invariant van <= v
      invariant forall k :: 0 <= k < |keys| ==> KeyAt(zin, keys[k], van, tot)
      invariant forall k :: 0 <= k < |keys| - 1 ==> keys[k].to + 2 < keys[k + 1].from
      invariant keys != [] ==> keys[|keys| - 1].to + 2 == v
      decreases tot - v
    {
      var index := Find(zin, "{{", v, tot);
      if index < 1 {
        break;
      }
      v := index + 1;
      index := Find(zin, "}}", v, tot);
      if index < 1 {
        return;
      }
      keys := keys + [Span(v, index - 1)];
      v := index + 1;
    }
  }

  // ---------------------------------------------------------------------
  // render_

  /** No line feed in `f[s.from..s.to]`. */
  predicate OneLine(f: seq<char>, s: Span) {
    s.from <= s.to <= |f| && forall k :: s.from <= k < s.to ==> f[k] != '\n'
  }

  /**
   * `lines` split a prefix of `f` at its line feeds: each is one line, the
   * first starts at 0, and each but the last ends at a line feed where the
   * next one begins.
   */
  predicate Splits(f: seq<char>, lines: seq<Span>) {
    && (forall k :: 0 <= k < |lines| ==> OneLine(f, lines[k]))
    && (lines != [] ==> lines[0].from == 0)
    && (forall k :: 0 <= k < |lines| - 1 ==>
          lines[k].to < |f| && f[lines[k].to] == '\n' && lines[k + 1].from == lines[k].to + 1)
  }

  /** Where the line after `lines` starts: at 0, or one past the line feed ending the last line. */
  predicate NextAt(f: seq<char>, lines: seq<Span>, start: nat) {
    if lines == [] then start == 0
    else
      var last := lines[|lines| - 1].to;
      last < |f| && f[last] == '\n' && start == last + 1
  }

  lemma SplitsSnoc(f: seq<char>, lines: seq<Span>, s: Span)
    requires Splits(f, lines) && NextAt(f, lines, s.from) && OneLine(f, s)
    ensures Splits(f, lines + [s])
  {
    var ls := lines + [s];
    forall k | 0 <= k < |ls| - 1
      ensures ls[k].to < |f| && f[ls[k].to] == '\n' && ls[k + 1].from == ls[k].to + 1
    {
      assert ls[k] == lines[k];
    }
  }

  /**
   * `render_(client, locals, f)`: the line spans `[start, start + i)` it
   * visits (the call that would render each is commented out, so nothing
   * is written). They split `f` at its line feeds, in order: the first
   * starts at 0, each ends at a line feed where the next begins one past it,
   * and the last ends at the terminator or at a final line feed. An empty
   * view has no lines.
   */
  method Render(f: CStr) returns (lines: seq<Span>)
    ensures lines == [] <==> f == []
    ensures forall k :: 0 <= k < |lines| ==> OneLine(f, lines[k])
    ensures lines != [] ==> lines[0].from == 0
    ensures forall k :: 0 <= k < |lines| - 1 ==>
      lines[k].to < |f| && f[lines[k].to] == '\n' && lines[k + 1].from == lines[k].to + 1
    ensures lines != [] ==>
      var last := lines[|lines| - 1].to;
      last == |f| || (last + 1 == |f| && f[last] == '\n')
  {
    var buf := f + ['\0'];
    lines := [];
    var start := 0;
    while buf[start] != '\0'
      invariant start <= |f|
      invariant buf[start] == '\0' <==> start == |f|
      invariant Splits(f, lines) && NextAt(f, lines, start)
      decreases |f| - start
    {
      var i := LineLength(f, start);
      SplitsSnoc(f, lines, Span(start, start + i));
      lines := lines + [Span(start, start + i)];
      if buf[start + i] == '\0' {
        break;
      }
      start := start + i + 1;
    }
  }

  /** The inner loop of `render_`: the length `i` of the line starting at `start`. */
  method LineLength(f: CStr, start: nat) returns (i: nat)
    requires start <= |f|
    ensures start + i <= |f|
    ensures OneLine(f, Span(start, start + i))
    ensures start + i < |f| ==> f[start + i] == '\n'
  {
    var buf := f + ['\0'];
    i := 0;
    while buf[start + i] != '\n' && buf[start + i] != '\0'
      invariant start + i <= |f|
      invariant forall k :: start <= k < start + i ==> f[k] != '\n'
      decreases |f| - (start + i)
    {
      i := i + 1;
    }
  }
}
