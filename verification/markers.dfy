/** The template marker grammar, scanned by hand instead of by QRegExp.

    A tag marker is an opener (`@` or `$(`), a name of at least one character,
    and a closer (`@` or `)`). The tag expression is used in minimal mode, so a
    match starts at the leftmost opener that can be completed and ends at the
    first closer that leaves the name non-empty. A name of the form
    `start_block_<block>` opens a block, which the content expression closes at
    the nearest `end_block_<block>` marker leaving at least one character of
    content. */
module Markers {
  import opened Wrappers

  const StartPrefix: string := "start_block_"
  const EndPrefix: string := "end_block_"

  /** An opener, `@` or `$(`, begins at index `i`. */
  predicate IsOpenAt(t: string, i: int)
  {
    0 <= i < |t| && (t[i] == '@' || (t[i] == '$' && i + 1 < |t| && t[i + 1] == '('))
  }

  /** The length of the opener at `i`: one for `@`, two for `$(`. */
  function OpenLen(t: string, i: int): nat
  {
    if 0 <= i < |t| && t[i] == '@' then 1 else 2
  }

  predicate IsClose(c: char)
  {
    c == '@' || c == ')'
  }

  /** The tag expression `(\@|\$\()(start_block_)?(.+)(\@|\))` matches the `n`
      characters of `t` starting at `i` (`.` matches any character). */
  predicate TagMatch(t: string, i: int, n: int)
  {
    IsOpenAt(t, i) && OpenLen(t, i) + 2 <= n && i + n <= |t| && IsClose(t[i + n - 1])
  }

  /** The characters of `w` appear in `t` from index `i` on. */
  predicate WordAt(t: string, i: nat, w: string)
    decreases |w|
  {
    |w| == 0 || (i < |t| && t[i] == w[0] && WordAt(t, i + 1, w[1..]))
  }

  /** `WordAt` is the slice comparison. */
  lemma {:induction false} WordAtSlice(t: string, i: nat, w: string)
    requires i <= |t|
    ensures WordAt(t, i, w) <==> i + |w| <= |t| && t[i..i + |w|] == w
    decreases |w|
  {
    if |w| > 0 && i < |t| {
      WordAtSlice(t, i + 1, w[1..]);
      if i + |w| <= |t| {
        assert t[i..i + |w|] == [t[i]] + t[i + 1..i + |w|];
        assert w == [w[0]] + w[1..];
      }
    }
  }

  /** A captured name that begins with `start_block_` (capture 2) and has a
      non-empty rest (capture 3). */
  predicate OpensBlock(name: string)
  {
    |name| > |StartPrefix| && name[..|StartPrefix|] == StartPrefix
  }

  /** One match of the tag expression: its position, the length of its opener,
      and the captured name (captures 2 and 3 together). */
  datatype Marker = Marker(pos: nat, open: nat, name: string)
  {
    function Len(): nat
    {
      open + |name| + 1
    }

    function End(): nat
    {
      pos + Len()
    }

    /** Capture 2 is `start_block_`: the marker opens a block. */
    predicate IsBlockStart()
    {
      OpensBlock(name)
    }

    function BlockName(): string
      requires IsBlockStart()
    {
      name[|StartPrefix|..]
    }

    /** Capture 3: the name without the `start_block_` prefix. */
    function Key(): string
    {
      if IsBlockStart() then BlockName() else name
    }
  }

  /** `m` describes text really present in `t`: opener, name, closer. */
  predicate Placed(t: string, m: Marker)
  {
    && IsOpenAt(t, m.pos)
    && m.open == OpenLen(t, m.pos)
    && |m.name| >= 1
    && m.End() <= |t|
    && t[m.pos + m.open..m.End() - 1] == m.name
    && IsClose(t[m.End() - 1])
  }

  /** The first closer at or after index `k`. */
  function FirstClose(t: string, k: nat): (r: Option<nat>)
    ensures r.Some? ==> k <= r.value < |t| && IsClose(t[r.value])
    ensures r.Some? ==> forall x :: k <= x < r.value ==> !IsClose(t[x])
    ensures r.None? ==> forall x :: k <= x < |t| ==> !IsClose(t[x])
    decreases |t| - k
  {
    if k >= |t| then None
    else if IsClose(t[k]) then Some(k)
    else FirstClose(t, k + 1)
  }

  /** The shortest match of the tag expression starting exactly at `i`. */
  function MarkerAt(t: string, i: nat): (r: Option<Marker>)
    ensures r.Some? ==> r.value.pos == i && r.value.End() <= |t|
  {
    if !IsOpenAt(t, i) then None
    else
      var o := OpenLen(t, i);
      match FirstClose(t, i + o + 1)
      case None => None
      case Some(j) =>
        var m := Marker(i, o, t[i + o..j]);
        assert m.End() == j + 1;
        Some(m)
  }

  /** `MarkerAt` finds the shortest match at `i`, and finds one whenever the
      tag expression matches there at all. */
  lemma MarkerAtShortest(t: string, i: nat)
    ensures var r := MarkerAt(t, i);
      && (r.Some? ==> Placed(t, r.value))
      && (r.Some? ==> TagMatch(t, i, r.value.Len()))
      && (r.Some? ==> forall n :: n < r.value.Len() ==> !TagMatch(t, i, n))
      && (r.None? ==> forall n :: !TagMatch(t, i, n))
  {
    if IsOpenAt(t, i) {
      var o := OpenLen(t, i);
      match FirstClose(t, i + o + 1)
      case None =>
      case Some(j) =>
        assert MarkerAt(t, i).value.Len() == j + 1 - i;
    }
  }

  /** `regTag.indexIn(t, from)` in minimal mode: the leftmost match at or after
      `from`, and the shortest one there. */
  function FindMarker(t: string, from: nat): (r: Option<Marker>)
    ensures r.Some? ==> from <= r.value.pos && r.value.End() <= |t|
    decreases |t| - from
  {
    if from >= |t| then None
    else
      match MarkerAt(t, from)
      case Some(m) => Some(m)
      case None => FindMarker(t, from + 1)
  }

  /** `FindMarker` returns the leftmost match of the tag expression at or
      after `from`, in its shortest form, and nothing only when there is no
      match at all. */
  lemma {:induction false} FindMarkerLeftmost(t: string, from: nat)
    ensures var r := FindMarker(t, from);
      && (r.Some? ==> Placed(t, r.value))
      && (r.Some? ==> TagMatch(t, r.value.pos, r.value.Len()))
      && (r.Some? ==> forall n :: n < r.value.Len() ==> !TagMatch(t, r.value.pos, n))
      && (r.Some? ==> forall i, n :: from <= i < r.value.pos ==> !TagMatch(t, i, n))
      && (r.None? ==> forall i, n :: from <= i ==> !TagMatch(t, i, n))
    decreases |t| - from
  {
    if from < |t| {
      MarkerAtShortest(t, from);
      if MarkerAt(t, from).None? {
        FindMarkerLeftmost(t, from + 1);
      }
    } else {
      assert forall i, n :: from <= i ==> !TagMatch(t, i, n);
    }
  }

  /** Positions holding no opener are skipped. */
  lemma {:induction false} FindMarkerSkip(t: string, lo: nat, hi: nat)
    requires lo <= hi
    requires forall i :: lo <= i < hi ==> !IsOpenAt(t, i)
    ensures FindMarker(t, lo) == FindMarker(t, hi)
    decreases hi - lo
  {
    if lo < hi && lo < |t| {
      FindMarkerSkip(t, lo + 1, hi);
    }
  }

  /** A template without `@` or `$` holds no marker. */
  lemma NoOpenerNoMarker(t: string, from: nat)
    requires forall i :: 0 <= i < |t| ==> t[i] != '@' && t[i] != '$'
    ensures FindMarker(t, from).None?
  {
    if from < |t| {
      FindMarkerSkip(t, from, |t|);
    }
  }

  /* ---------------- blocks ---------------- */

  /** The closing marker `(\@|\$\()end_block_<name>(\@|\))` begins at `k`. */
  predicate IsEndAt(t: string, k: int, name: string)
  {
    && IsOpenAt(t, k)
    && WordAt(t, k + OpenLen(t, k), EndPrefix + name)
    && k + OpenLen(t, k) + |EndPrefix| + |name| < |t|
    && IsClose(t[k + OpenLen(t, k) + |EndPrefix| + |name|])
  }

  /** The length of the closing marker for `name` at `k`. */
  function EndLen(t: string, k: int, name: string): nat
  {
    OpenLen(t, k) + |EndPrefix| + |name| + 1
  }

  /** The nearest closing marker for `name` at or after index `k`. */
  function FindEnd(t: string, k: nat, name: string): (r: Option<nat>)
    ensures r.Some? ==> k <= r.value && r.value + EndLen(t, r.value, name) <= |t|
    decreases |t| - k
  {
    if k >= |t| then None
    else if IsEndAt(t, k, name) then Some(k)
    else FindEnd(t, k + 1, name)
  }

  /** `FindEnd` finds the nearest closing marker, and nothing only when there
      is none. */
  lemma {:induction false} FindEndNearest(t: string, k: nat, name: string)
    ensures var r := FindEnd(t, k, name);
      && (r.Some? ==> IsEndAt(t, r.value, name))
      && (r.Some? ==> forall x :: k <= x < r.value ==> !IsEndAt(t, x, name))
      && (r.None? ==> forall x :: k <= x ==> !IsEndAt(t, x, name))
    decreases |t| - k
  {
    if k < |t| && !IsEndAt(t, k, name) {
      FindEndNearest(t, k + 1, name);
    }
  }

  /** Positions holding no closing marker for `name` are skipped. */
  lemma {:induction false} FindEndSkip(t: string, lo: nat, hi: nat, name: string)
    requires lo <= hi
    requires forall x :: lo <= x < hi ==> !IsEndAt(t, x, name)
    ensures FindEnd(t, lo, name) == FindEnd(t, hi, name)
    decreases hi - lo
  {
    if lo < hi && lo < |t| {
      FindEndSkip(t, lo + 1, hi, name);
    }
  }

  /** The text `open + end_block_<name> + close` is a closing marker for
      `name`, as long as the marker itself. */
  lemma EndMarkerPlaced(c: string, open: string, name: string, close: string, post: string)
    requires open == "@" || open == "$("
    requires close == "@" || close == ")"
    ensures var t := c + (open + EndPrefix + name + close) + post;
      IsEndAt(t, |c|, name) && EndLen(t, |c|, name) == |open + EndPrefix + name + close|
  {
    var t := c + (open + EndPrefix + name + close) + post;
    var w := EndPrefix + name;
    var i := |c| + |open|;
    assert t == (c + open) + w + (close + post);
    assert t[|c|] == open[0];
    if open == "$(" {
      assert t[|c| + 1] == '(';
    }
    assert OpenLen(t, |c|) == |open|;
    assert t[i..i + |w|] == w;
    WordAtSlice(t, i, w);
    assert t[i + |w|] == close[0];
  }

  /** The opening part `(\@|\$\()start_block_<name>(\@|\))` of the content
      expression begins at `p`. */
  predicate IsStartAt(t: string, p: int, name: string)
  {
    && IsOpenAt(t, p)
    && WordAt(t, p + OpenLen(t, p), StartPrefix + name)
    && p + OpenLen(t, p) + |StartPrefix| + |name| < |t|
    && IsClose(t[p + OpenLen(t, p) + |StartPrefix| + |name|])
  }

  /** The whole content expression matches from `p` with its closing marker at
      `k`: opening part, at least one character of content, closing marker. */
  predicate ContentMatch(t: string, p: int, name: string, k: int)
  {
    IsStartAt(t, p, name) && k >= p + OpenLen(t, p) + |StartPrefix| + |name| + 2 && IsEndAt(t, k, name)
  }

  /** A matched block, measured from the end of its start marker: the number
      of characters of content, and the length of the whole span from the
      start marker to the end of the closing marker. */
  datatype Block = Block(size: nat, len: nat)

  /** The raw content of block `b` opened by `m` (capture 2 of the content
      expression). */
  function Content(t: string, m: Marker, b: Block): string
    requires m.End() + b.size <= |t|
  {
    t[m.End()..m.End() + b.size]
  }

  /** `b` is the block opened by the start marker `m`: a non-empty content
      right after `m`, then a closing marker for the same name. */
  predicate Encloses(t: string, m: Marker, b: Block)
    requires m.IsBlockStart()
  {
    var k := m.End() + b.size;
    && b.size >= 1
    && IsEndAt(t, k, m.BlockName())
    && m.pos + b.len == k + EndLen(t, k, m.BlockName())
  }

  /** A placed start marker is the opening part of the content expression
      for its block. */
  lemma StartMarkerOpens(t: string, m: Marker)
    requires Placed(t, m) && m.IsBlockStart()
    ensures IsStartAt(t, m.pos, m.BlockName())
  {
    assert m.name == StartPrefix + m.BlockName();
    WordAtSlice(t, m.pos + m.open, m.name);
  }

  /** Any match of the content expression at or after a start marker closes
      after at least one character of content following that marker. */
  lemma ContentAfterMarker(t: string, m: Marker, p: int, k: int)
    requires Placed(t, m) && m.IsBlockStart()
    requires m.pos <= p && ContentMatch(t, p, m.BlockName(), k)
    ensures k >= m.End() + 1
  {
    if p > m.pos && m.open == 2 {
      assert t[m.pos + 1] == '(';
    }
  }

  /** `contentReg.indexIn(t, m.pos)` for the start marker `m`: the block
      closed by the nearest closing marker that leaves a non-empty content. */
  function FindBlock(t: string, m: Marker): (r: Option<Block>)
    requires m.IsBlockStart() && m.End() <= |t|
    ensures r.Some? ==> 1 <= r.value.size && m.End() + r.value.size < |t|
    ensures r.Some? ==> m.Len() < r.value.len && m.pos + r.value.len <= |t|
  {
    var cs := m.End();
    var name := m.BlockName();
    match FindEnd(t, cs + 1, name)
    case None => None
    case Some(k) =>
      Some(Block(k - cs, k + EndLen(t, k, name) - m.pos))
  }


  /** The block found is the one closed by the nearest closing marker that
      leaves a non-empty content, and there is none only when no closing
      marker follows at all. */
  lemma FindBlockNearest(t: string, m: Marker)
    requires m.IsBlockStart() && m.End() <= |t|
    ensures var r := FindBlock(t, m);
      && (r.Some? ==> Encloses(t, m, r.value))
      && (r.Some? ==> forall x :: m.End() + 1 <= x < m.End() + r.value.size ==> !IsEndAt(t, x, m.BlockName()))
      && (r.None? ==> forall x :: m.End() + 1 <= x ==> !IsEndAt(t, x, m.BlockName()))
  {
    FindEndNearest(t, m.End() + 1, m.BlockName());
  }

  /** The content expression is searched from the start marker. Its opening
      part always matches there (it is the text of `m` itself), and a match
      found further right would also complete one at `m.pos`; so there is a
      block exactly when the content expression matches somewhere from
      `m.pos` on. */
  lemma FindBlockExists(t: string, m: Marker)
    requires Placed(t, m) && m.IsBlockStart()
    ensures FindBlock(t, m).Some? <==> exists p, k :: m.pos <= p && ContentMatch(t, p, m.BlockName(), k)
  {
    var name := m.BlockName();
    FindEndNearest(t, m.End() + 1, name);
    match FindEnd(t, m.End() + 1, name)
    case None =>
      forall p, k | m.pos <= p && ContentMatch(t, p, name, k)
        ensures false
      {
        ContentAfterMarker(t, m, p, k);
      }
    case Some(k) =>
      StartMarkerOpens(t, m);
      assert ContentMatch(t, m.pos, name, k);
  }

  /* ---------------- scanning after a prefix ---------------- */

  /** Every test the scanner makes at a position looks only at that position
      and the ones after it, so text put in front shifts its results. */
  function Shifted(r: Option<Marker>, d: nat): Option<Marker>
  {
    match r
    case None => None
    case Some(m) => Some(m.(pos := m.pos + d))
  }

  lemma SliceShift(x: string, y: string, i: int, j: int)
    requires 0 <= i <= j <= |y|
    ensures (x + y)[|x| + i..|x| + j] == y[i..j]
  {
    assert forall n :: 0 <= n < j - i ==> (x + y)[|x| + i..|x| + j][n] == y[i..j][n];
  }

  lemma OpenShift(x: string, y: string, i: nat)
    ensures IsOpenAt(x + y, |x| + i) <==> IsOpenAt(y, i)
    ensures OpenLen(x + y, |x| + i) == OpenLen(y, i)
  {
    if i < |y| {
      assert (x + y)[|x| + i] == y[i];
      if i + 1 < |y| {
        assert (x + y)[|x| + i + 1] == y[i + 1];
      }
    }
  }

  lemma {:induction false} FirstCloseShift(x: string, y: string, k: nat)
    ensures FirstClose(x + y, |x| + k)
         == (if FirstClose(y, k).Some? then Some(|x| + FirstClose(y, k).value) else None)
    decreases |y| - k
  {
    if k < |y| {
      assert (x + y)[|x| + k] == y[k];
      if !IsClose(y[k]) {
        FirstCloseShift(x, y, k + 1);
      }
    }
  }

  lemma MarkerAtShift(x: string, y: string, i: nat)
    ensures MarkerAt(x + y, |x| + i) == Shifted(MarkerAt(y, i), |x|)
  {
    var t := x + y;
    OpenShift(x, y, i);
    if IsOpenAt(y, i) {
      var o := OpenLen(y, i);
      FirstCloseShift(x, y, i + o + 1);
      match FirstClose(y, i + o + 1)
      case None =>
        assert FirstClose(t, |x| + i + o + 1).None?;
      case Some(j) =>
        assert FirstClose(t, |x| + i + o + 1) == Some(|x| + j);
        SliceShift(x, y, i + o, j);
        assert MarkerAt(t, |x| + i) == Some(Marker(|x| + i, o, y[i + o..j]));
    }
  }

  lemma {:induction false} FindMarkerShift(x: string, y: string, f: nat)
    ensures FindMarker(x + y, |x| + f) == Shifted(FindMarker(y, f), |x|)
    decreases |y| - f
  {
    if f < |y| {
      MarkerAtShift(x, y, f);
      if MarkerAt(y, f).None? {
        FindMarkerShift(x, y, f + 1);
      }
    }
  }

  lemma {:induction false} WordShift(x: string, y: string, i: nat, w: string)
    ensures WordAt(x + y, |x| + i, w) <==> WordAt(y, i, w)
    decreases |w|
  {
    if |w| > 0 {
      WordShift(x, y, i + 1, w[1..]);
      if i < |y| {
        assert (x + y)[|x| + i] == y[i];
      }
    }
  }

  lemma EndShift(x: string, y: string, k: nat, name: string)
    ensures IsEndAt(x + y, |x| + k, name) <==> IsEndAt(y, k, name)
    ensures EndLen(x + y, |x| + k, name) == EndLen(y, k, name)
  {
    OpenShift(x, y, k);
    if IsOpenAt(y, k) {
      var c := k + OpenLen(y, k) + |EndPrefix| + |name|;
      WordShift(x, y, k + OpenLen(y, k), EndPrefix + name);
      if c < |y| {
        assert (x + y)[|x| + c] == y[c];
      }
    }
  }

  lemma {:induction false} FindEndShift(x: string, y: string, k: nat, name: string)
    ensures FindEnd(x + y, |x| + k, name)
         == (if FindEnd(y, k, name).Some? then Some(|x| + FindEnd(y, k, name).value) else None)
    decreases |y| - k
  {
    if k < |y| {
      EndShift(x, y, k, name);
      if !IsEndAt(y, k, name) {
        FindEndShift(x, y, k + 1, name);
      }
    }
  }

  lemma FindBlockShift(x: string, y: string, m: Marker)
    requires m.IsBlockStart() && m.End() <= |y|
    ensures FindBlock(x + y, m.(pos := m.pos + |x|)) == FindBlock(y, m)
  {
    var name := m.BlockName();
    FindEndShift(x, y, m.End() + 1, name);
    if FindEnd(y, m.End() + 1, name).Some? {
      EndShift(x, y, FindEnd(y, m.End() + 1, name).value, name);
    }
  }

  lemma ContentShift(x: string, y: string, m: Marker, b: Block)
    requires m.End() + b.size <= |y|
    ensures Content(x + y, m.(pos := m.pos + |x|), b) == Content(y, m, b)
  {
    SliceShift(x, y, m.End(), m.End() + b.size);
  }

  /** A search from index `k` sees only the text from `k` on. */
  lemma FindMarkerInSuffix(t: string, k: nat)
    requires k <= |t|
    ensures FindMarker(t, k) == Shifted(FindMarker(t[k..], 0), k)
  {
    assert t == t[..k] + t[k..];
    FindMarkerShift(t[..k], t[k..], 0);
  }

  /** The block opened by a marker at index `k` + `m.pos` is found in the
      text from `k` on, and its content is the same text. */
  lemma FindBlockInSuffix(t: string, k: nat, m: Marker)
    requires k <= |t| && m.IsBlockStart() && m.End() <= |t| - k
    ensures FindBlock(t, m.(pos := m.pos + k)) == FindBlock(t[k..], m)
    ensures forall b: Block :: m.End() + b.size <= |t| - k ==>
      Content(t, m.(pos := m.pos + k), b) == Content(t[k..], m, b)
  {
    FindBlockSuffixShift(t, k, m);
    forall b: Block | m.End() + b.size <= |t| - k
      ensures Content(t, m.(pos := m.pos + k), b) == Content(t[k..], m, b)
    {
      assert t[k..][m.End()..m.End() + b.size] == t[m.End() + k..m.End() + k + b.size];
    }
  }

  lemma FindBlockSuffixShift(t: string, k: nat, m: Marker)
    requires k <= |t| && m.IsBlockStart() && m.End() <= |t| - k
    ensures FindBlock(t, m.(pos := m.pos + k)) == FindBlock(t[k..], m)
  {
    var x, y := t[..k], t[k..];
    assert t == x + y;
    assert m.(pos := m.pos + |x|) == m.(pos := m.pos + k);
    FindBlockShift(x, y, m);
  }
}
