/** `Parser::parse`: the template is walked left to right. Text between
    markers is copied, a tag marker is replaced by its value, and a block is
    rendered from its trimmed content, recursively or as the images table.
    The tag map is shared with the nested renderings and with the images
    table, so it is threaded through and returned with the text.

    The source searches the whole template from an index. Every search looks
    only at the text from that index on (`Markers.FindMarkerInSuffix`,
    `Markers.FindBlockInSuffix`), so the loop is modelled on the text not yet
    searched, with the text before it that is not yet copied carried along. */
module Parser {
  import opened Wrappers
  import opened Text
  import opened Substitution
  import opened Markers
  import opened ImagesTable

  /** The renderer as the source has it, or with its two slips put right:
      the last character of the template is kept, and a start marker with no
      matching end does not make the text before it appear twice. */
  datatype Variant = AsWritten | Corrected

  /** The block whose content is expanded once per image. */
  const ImagesTableName: string := "images_table"

  /** The expansion of the images table, given the trimmed content of the
      block and the tag map: its text and the map it leaves behind. */
  type Expander = (string, Tags) -> Output

  /** `e` keeps free of marker characters a map whose values are. */
  ghost predicate KeepsFree(e: Expander)
  {
    forall c, g :: ValuesFree(g) ==> ValuesFree(e(c, g).tags)
  }

  /** The text left after the last marker. As written, it is copied only
      when it is longer than one UTF-16 code unit, the unit `QString` counts
      in. */
  function Tail(u: string, v: Variant): string
  {
    if v.Corrected? || Utf16Length(u) >= 2 then u else ""
  }

  /** Renders template `t` against `tags`. */
  function Render(t: string, tags: Tags, e: Expander, v: Variant): (r: Output)
    decreases |t|, 1, 0
  {
    Scan(t, "", tags, e, v)
  }

  /** The trimmed content of a block: expanded per image for the images
      table, rendered as a template of its own otherwise. */
  function Inner(content: string, name: string, tags: Tags, e: Expander, v: Variant): (r: Output)
    decreases |content|, 2, 0
  {
    if name == ImagesTableName then e(content, tags)
    else Render(content, tags, e, v)
  }

  /** The loop of `parse`: `s` is the text not yet searched, and `pending`
      the text before it not yet copied. */
  function Scan(s: string, pending: string, tags: Tags, e: Expander, v: Variant): (r: Output)
    decreases |s|, 0, 2
  {
    match FindMarker(s, 0)
    case None => Output(Tail(pending + s, v), tags)
    case Some(m) => Step(s, m, pending, tags, e, v)
  }

  /** One turn of the loop, for the first marker `m` of `s`. The text before
      it, `lit`, is copied in every case. */
  function Step(s: string, m: Marker, pending: string, tags: Tags, e: Expander, v: Variant): (r: Output)
    requires m.End() <= |s|
    decreases |s|, 0, 1
  {
    var lit := pending + s[..m.pos];
    if !m.IsBlockStart() then AtTag(s, m, lit, tags, e, v)
    else
      match FindBlock(s, m)
      case Some(b) => AtBlock(s, m, b, lit, tags, e, v)
      case None => AtLoneStart(s, m, lit, tags, e, v)
  }

  /** A tag marker is replaced by the value of its tag. */
  function AtTag(s: string, m: Marker, lit: string, tags: Tags, e: Expander, v: Variant): (r: Output)
    requires m.End() <= |s|
    decreases |s|, 0, 0
  {
    var rest := Scan(s[m.End()..], "", tags, e, v);
    Output(lit + Lookup(tags, m.Key()) + rest.text, rest.tags)
  }

  /** A block is replaced by the rendering of its trimmed content, and the
      search goes on after its closing marker. */
  function AtBlock(s: string, m: Marker, b: Block, lit: string, tags: Tags, e: Expander, v: Variant): (r: Output)
    requires m.IsBlockStart() && m.End() + b.size <= |s| && m.Len() < b.len && m.pos + b.len <= |s|
    decreases |s|, 0, 0
  {
    var out := Inner(Trim(Content(s, m, b)), m.BlockName(), tags, e, v);
    var rest := Scan(s[m.pos + b.len..], "", out.tags, e, v);
    Output(lit + out.text + rest.text, rest.tags)
  }

  /** A start marker with no block: the search goes on after it. As written,
      the text not yet copied is not moved on, so `lit` is still pending and
      the marker joins it; corrected, the marker renders as nothing. */
  function AtLoneStart(s: string, m: Marker, lit: string, tags: Tags, e: Expander, v: Variant): (r: Output)
    requires m.End() <= |s|
    decreases |s|, 0, 0
  {
    var marker := s[m.pos..m.End()];
    var rest := Scan(s[m.End()..], if v.AsWritten? then lit + marker else "", tags, e, v);
    Output(lit + rest.text, rest.tags)
  }

  /* ---------------- what a rendering produces ---------------- */

  /** A template without markers is copied, but as written a template of
      one character is lost. */
  lemma RenderNoMarkers(t: string, tags: Tags, e: Expander, v: Variant)
    requires NoMarkerChars(t)
    ensures Render(t, tags, e, v) == Output(Tail(t, v), tags)
    ensures v.Corrected? ==> Render(t, tags, e, v).text == t
  {
    MarkerCharsStartMarkers(t, 0);
    assert "" + t == t;
  }

  /** A tag marker after marker-free text: the text is copied, then the
      value of the tag, then the rest is rendered. */
  lemma ScanTagFirst(pre: string, open: string, name: string, close: string, post: string,
                     pending: string, tags: Tags, e: Expander, v: Variant)
    requires TagParts(open, name, close) && NoMarkerChars(pre)
    ensures var r := Scan(post, "", tags, e, v);
      Scan(pre + open + name + close + post, pending, tags, e, v)
      == Output(pending + pre + Lookup(tags, name) + r.text, r.tags)
  {
    var s := pre + open + name + close + post;
    var m := Marker(|pre|, |open|, name);
    SingleMarkerFound(pre, open, name, close, post);
    MarkerPieces(pre, open, name, close, post);
    ScanFirstMarker(s, m, pending, tags, e, v);
    StepTag(s, m, pending, tags, e, v);
  }

  /** A template without blocks renders to its literals with every tag
      replaced by its value, in order, and leaves the tag map alone; only
      the text after the last marker depends on the variant. */
  lemma {:induction false} RenderFlat(ps: seq<Piece>, last: string, tags: Tags, e: Expander, v: Variant)
    requires FlatPieces(ps) && NoMarkerChars(last)
    ensures Render(Join(ps, last), tags, e, v) == Output(Substituted(ps, tags, Tail(last, v)), tags)
    decreases |ps|
  {
    if |ps| == 0 {
      RenderNoMarkers(last, tags, e, v);
    } else {
      var p := ps[0];
      FlatPiecesTail(ps);
      RenderFlat(ps[1..], last, tags, e, v);
      ScanTagFirst(p.lit, p.open, p.name, p.close, Join(ps[1..], last), "", tags, e, v);
      assert "" + p.lit == p.lit;
    }
  }

  /** On a separated template without blocks whose tag names are
      marker-free, `parseSimple` writes the same text as the corrected
      `parse`. */
  lemma SimpleAgreesWithParse(ps: seq<Piece>, last: string, tags: Tags, e: Expander)
    requires ValuesFree(tags)
    requires FlatPieces(ps) && FreeNames(ps) && NoMarkerChars(last)
    requires Separated(ps, tags, last)
    ensures Simple(Join(ps, last), tags) == Render(Join(ps, last), tags, e, Corrected).text
  {
    SimpleFlat(ps, last, tags);
    RenderFlat(ps, last, tags, e, Corrected);
  }

  /** The pieces of `a + c + d + p` are where they were put. */
  lemma Pieces(a: string, c: string, d: string, p: string)
    ensures var s := a + c + d + p;
      && s == a + (c + d + p)
      && s[|a|..|a| + |c|] == c
      && s[|a| + |c| + |d|..] == p
  {
    var s := a + c + d + p;
    assert s[|a|..|a| + |c|] == c;
  }

  /** The nearest closing marker past the first character of `c` is the
      one put right after `c`. */
  lemma EndAfterContent(c: string, eopen: string, bname: string, eclose: string, post: string)
    requires eopen == "@" || eopen == "$("
    requires eclose == "@" || eclose == ")"
    requires |c| >= 1
    requires forall x :: 1 <= x < |c| ==> !IsEndAt(c + (eopen + EndPrefix + bname + eclose) + post, x, bname)
    ensures var y := c + (eopen + EndPrefix + bname + eclose) + post;
      FindEnd(y, 1, bname) == Some(|c|) && EndLen(y, |c|, bname) == |eopen + EndPrefix + bname + eclose|
  {
    var y := c + (eopen + EndPrefix + bname + eclose) + post;
    EndMarkerPlaced(c, eopen, bname, eclose, post);
    FindEndSkip(y, 1, |c|, bname);
  }

  /** A start marker after marker-free text is the first marker, and its
      block is closed by the nearest closing marker in the text `y` after
      it. */
  lemma StartThenEnd(pre: string, open: string, name: string, close: string, y: string)
    requires MarkerParts(open, name, close) && OpensBlock(name) && NoMarkerChars(pre)
    requires FindEnd(y, 1, name[|StartPrefix|..]).Some?
    ensures var s := pre + open + name + close + y;
      var m := Marker(|pre|, |open|, name);
      var k := FindEnd(y, 1, name[|StartPrefix|..]).value;
      && FindMarker(s, 0) == Some(m)
      && FindBlock(s, m) == Some(Block(k, |open| + |name| + |close| + k + EndLen(y, k, name[|StartPrefix|..])))
  {
    var bname := name[|StartPrefix|..];
    var a := pre + open + name + close;
    SingleMarkerFound(pre, open, name, close, y);
    var m := Marker(|pre|, |open|, name);
    assert m.End() == |a|;
    FindEndShift(a, y, 1, bname);
    EndShift(a, y, FindEnd(y, 1, bname).value, bname);
  }

  /** The markers of a block placed after marker-free text are found where
      they were put: the start marker first, then its block with content
      `c`. */
  lemma BlockFound(pre: string, open: string, name: string, close: string, c: string,
                   eopen: string, eclose: string, post: string)
    requires MarkerParts(open, name, close) && OpensBlock(name) && NoMarkerChars(pre)
    requires eopen == "@" || eopen == "$("
    requires eclose == "@" || eclose == ")"
    requires |c| >= 1
    requires var y := c + (eopen + EndPrefix + name[|StartPrefix|..] + eclose) + post;
      forall x :: 1 <= x < |c| ==> !IsEndAt(y, x, name[|StartPrefix|..])
    ensures var ed := eopen + EndPrefix + name[|StartPrefix|..] + eclose;
      var s := pre + open + name + close + c + ed + post;
      var m := Marker(|pre|, |open|, name);
      && FindMarker(s, 0) == Some(m)
      && FindBlock(s, m) == Some(Block(|c|, |open| + |name| + |close| + |c| + |ed|))
  {
    var bname := name[|StartPrefix|..];
    var a := pre + open + name + close;
    var ed := eopen + EndPrefix + bname + eclose;
    var y := c + ed + post;
    Pieces(a, c, ed, post);
    assert a + c + ed + post == pre + open + name + close + y;
    EndAfterContent(c, eopen, bname, eclose, post);
    assert FindEnd(y, 1, bname) == Some(|c|) && EndLen(y, |c|, bname) == |ed|;
    StartThenEnd(pre, open, name, close, y);
  }

  /** The text before a block, its content and the text after it are the
      pieces the template was made of. */
  lemma BlockPieces(pre: string, open: string, name: string, close: string, c: string, ed: string, post: string)
    requires |close| == 1
    ensures var s := pre + open + name + close + c + ed + post;
      var m := Marker(|pre|, |open|, name);
      var b := Block(|c|, |open| + |name| + |close| + |c| + |ed|);
      && m.End() + b.size <= |s|
      && Content(s, m, b) == c
      && s[..m.pos] == pre
      && s[m.pos + b.len..] == post
  {
    var a := pre + open + name + close;
    var s := a + c + ed + post;
    Pieces(a, c, ed, post);
    assert s[..|pre|] == pre by {
      assert s[..|a|] == a;
    }
  }

  /** The first marker found is the one the loop turns on. */
  lemma ScanFirstMarker(s: string, m: Marker, pending: string, tags: Tags, e: Expander, v: Variant)
    requires FindMarker(s, 0) == Some(m)
    ensures m.End() <= |s| && Scan(s, pending, tags, e, v) == Step(s, m, pending, tags, e, v)
  {
  }

  /** A turn of the loop on a block that is found. */
  lemma StepMatchedBlock(s: string, m: Marker, b: Block, pending: string, tags: Tags, e: Expander, v: Variant)
    requires m.End() <= |s| && m.IsBlockStart() && FindBlock(s, m) == Some(b)
    ensures var out := Inner(Trim(Content(s, m, b)), m.BlockName(), tags, e, v);
      var r := Scan(s[m.pos + b.len..], "", out.tags, e, v);
      Step(s, m, pending, tags, e, v) == Output(pending + s[..m.pos] + out.text + r.text, r.tags)
  {
    StepAtBlock(s, m, b, pending, tags, e, v);
    AtBlockIs(s, m, b, pending + s[..m.pos], tags, e, v);
  }

  lemma AtBlockIs(s: string, m: Marker, b: Block, lit: string, tags: Tags, e: Expander, v: Variant)
    requires m.IsBlockStart() && m.End() + b.size <= |s| && m.Len() < b.len && m.pos + b.len <= |s|
    ensures var out := Inner(Trim(Content(s, m, b)), m.BlockName(), tags, e, v);
      var r := Scan(s[m.pos + b.len..], "", out.tags, e, v);
      AtBlock(s, m, b, lit, tags, e, v) == Output(lit + out.text + r.text, r.tags)
  {
    var c := Trim(Content(s, m, b));
    var out := Inner(c, m.BlockName(), tags, e, v);
    var t := s[m.pos + b.len..];
    var r := Scan(t, "", out.tags, e, v);
    assert AtBlock(s, m, b, lit, tags, e, v) == Output(lit + out.text + r.text, r.tags);
  }

  lemma StepAtBlock(s: string, m: Marker, b: Block, pending: string, tags: Tags, e: Expander, v: Variant)
    requires m.End() <= |s| && m.IsBlockStart() && FindBlock(s, m) == Some(b)
    ensures Step(s, m, pending, tags, e, v) == AtBlock(s, m, b, pending + s[..m.pos], tags, e, v)
  {
  }

  /** The first marker opens a block that is found: the text before it is
      copied, then the rendering of the trimmed content, then the rest after
      the block is rendered with the tag map the content left. */
  lemma ScanMatchedBlock(s: string, m: Marker, b: Block, pending: string, tags: Tags, e: Expander, v: Variant)
    requires FindMarker(s, 0) == Some(m) && m.IsBlockStart() && FindBlock(s, m) == Some(b)
    ensures var out := Inner(Trim(Content(s, m, b)), m.BlockName(), tags, e, v);
      var r := Scan(s[m.pos + b.len..], "", out.tags, e, v);
      Scan(s, pending, tags, e, v) == Output(pending + s[..m.pos] + out.text + r.text, r.tags)
  {
    ScanFirstMarker(s, m, pending, tags, e, v);
    StepMatchedBlock(s, m, b, pending, tags, e, v);
  }

  /** A block after marker-free text, its content holding no closing marker
      for the block past its first character: the text is copied, then the
      rendering of the trimmed content, then the rest is rendered with the
      tag map the content left. */
  lemma ScanBlockFirst(pre: string, open: string, name: string, close: string, c: string,
                       eopen: string, eclose: string, post: string,
                       pending: string, tags: Tags, e: Expander, v: Variant)
    requires MarkerParts(open, name, close) && OpensBlock(name) && NoMarkerChars(pre)
    requires eopen == "@" || eopen == "$("
    requires eclose == "@" || eclose == ")"
    requires |c| >= 1
    requires var y := c + (eopen + EndPrefix + name[|StartPrefix|..] + eclose) + post;
      forall x :: 1 <= x < |c| ==> !IsEndAt(y, x, name[|StartPrefix|..])
    ensures var bname := name[|StartPrefix|..];
      var out := Inner(Trim(c), bname, tags, e, v);
      var r := Scan(post, "", out.tags, e, v);
      Scan(pre + open + name + close + c + (eopen + EndPrefix + bname + eclose) + post, pending, tags, e, v)
      == Output(pending + pre + out.text + r.text, r.tags)
  {
    var ed := eopen + EndPrefix + name[|StartPrefix|..] + eclose;
    var s := pre + open + name + close + c + ed + post;
    var m := Marker(|pre|, |open|, name);
    var b := Block(|c|, |open| + |name| + |close| + |c| + |ed|);
    BlockFound(pre, open, name, close, c, eopen, eclose, post);
    BlockPieces(pre, open, name, close, c, ed, post);
    assert m.IsBlockStart() && m.BlockName() == name[|StartPrefix|..];
    ScanMatchedBlock(s, m, b, pending, tags, e, v);
    assert Content(s, m, b) == c && s[..m.pos] == pre && s[m.pos + b.len..] == post;
  }

  /** A turn of the loop on a start marker with no block: the text before
      it is copied and the scan goes on after the marker. As written, the
      text not yet copied is not moved on, so the text before the marker is
      still pending and the marker joins it; corrected, nothing is pending. */
  lemma StepUnmatched(s: string, m: Marker, pending: string, tags: Tags, e: Expander, v: Variant)
    requires m.End() <= |s| && m.IsBlockStart() && FindBlock(s, m).None?
    ensures var lit := pending + s[..m.pos];
      var marker := s[m.pos..m.End()];
      var r := Scan(s[m.End()..], if v.AsWritten? then lit + marker else "", tags, e, v);
      Step(s, m, pending, tags, e, v) == Output(lit + r.text, r.tags)
  {
  }

  /** A turn of the loop on a tag marker. */
  lemma StepTag(s: string, m: Marker, pending: string, tags: Tags, e: Expander, v: Variant)
    requires m.End() <= |s| && !m.IsBlockStart()
    ensures var r := Scan(s[m.End()..], "", tags, e, v);
      Step(s, m, pending, tags, e, v) == Output(pending + s[..m.pos] + Lookup(tags, m.Key()) + r.text, r.tags)
  {
  }

  /** A start marker after marker-free text, with no closing marker for its
      block anywhere past the first character after it: it is the first
      marker and has no block. */
  lemma UnmatchedFound(pre: string, open: string, name: string, close: string, post: string)
    requires MarkerParts(open, name, close) && OpensBlock(name) && NoMarkerChars(pre)
    requires forall x :: 1 <= x ==> !IsEndAt(post, x, name[|StartPrefix|..])
    ensures var s := pre + open + name + close + post;
      var m := Marker(|pre|, |open|, name);
      FindMarker(s, 0) == Some(m) && FindBlock(s, m).None?
  {
    var bname := name[|StartPrefix|..];
    var a := pre + open + name + close;
    SingleMarkerFound(pre, open, name, close, post);
    FindEndNearest(post, 1, bname);
    FindEndShift(a, post, 1, bname);
  }

  /** A start marker with no block after marker-free text: the text is
      copied. As written, the marker is left pending together with the text
      before it, which is thereby copied twice; corrected, the marker renders
      as nothing. */
  lemma ScanUnmatchedFirst(pre: string, open: string, name: string, close: string, post: string,
                           pending: string, tags: Tags, e: Expander, v: Variant)
    requires MarkerParts(open, name, close) && OpensBlock(name) && NoMarkerChars(pre)
    requires forall x :: 1 <= x ==> !IsEndAt(post, x, name[|StartPrefix|..])
    ensures var marker := open + name + close;
      var r := Scan(post, if v.AsWritten? then pending + pre + marker else "", tags, e, v);
      Scan(pre + open + name + close + post, pending, tags, e, v) == Output(pending + pre + r.text, r.tags)
  {
    var s := pre + open + name + close + post;
    var m := Marker(|pre|, |open|, name);
    UnmatchedFound(pre, open, name, close, post);
    MarkerPieces(pre, open, name, close, post);
    ScanFirstMarker(s, m, pending, tags, e, v);
    StepUnmatched(s, m, pending, tags, e, v);
  }

  /* ---------------- the two slips ---------------- */

  lemma Regroup(p: string, a: string, b: string, c: string)
    ensures p + a + b + c == p + ("" + a + b + c)
    ensures p + a + b == p + ("" + a + b)
  {
    assert "" + a == a;
  }

  /** Corrected, the text not yet copied is copied once, ahead of everything
      the rest of the template renders to. */
  lemma CorrectedCopiesPendingOnce(s: string, pending: string, tags: Tags, e: Expander)
    ensures var r := Scan(s, "", tags, e, Corrected);
      Scan(s, pending, tags, e, Corrected) == Output(pending + r.text, r.tags)
  {
    match FindMarker(s, 0)
    case None =>
      assert "" + s == s;
    case Some(m) =>
      ScanFirstMarker(s, m, pending, tags, e, Corrected);
      ScanFirstMarker(s, m, "", tags, e, Corrected);
      if !m.IsBlockStart() {
        StepTag(s, m, pending, tags, e, Corrected);
        StepTag(s, m, "", tags, e, Corrected);
        var r := Scan(s[m.End()..], "", tags, e, Corrected);
        Regroup(pending, s[..m.pos], Lookup(tags, m.Key()), r.text);
      } else if FindBlock(s, m).None? {
        StepUnmatched(s, m, pending, tags, e, Corrected);
        StepUnmatched(s, m, "", tags, e, Corrected);
        var r := Scan(s[m.End()..], "", tags, e, Corrected);
        Regroup(pending, s[..m.pos], r.text, "");
      } else {
        var b := FindBlock(s, m).value;
        StepMatchedBlock(s, m, b, pending, tags, e, Corrected);
        StepMatchedBlock(s, m, b, "", tags, e, Corrected);
        var out := Inner(Trim(Content(s, m, b)), m.BlockName(), tags, e, Corrected);
        var r := Scan(s[m.pos + b.len..], "", out.tags, e, Corrected);
        Regroup(pending, s[..m.pos], out.text, r.text);
      }
  }

  /** Corrected, a start marker with no block renders as nothing: the text
      before it is copied once, followed by the rendering of the text after
      it. */
  lemma CorrectedUnmatchedDropped(pre: string, open: string, name: string, close: string, post: string,
                                  tags: Tags, e: Expander)
    requires MarkerParts(open, name, close) && OpensBlock(name) && NoMarkerChars(pre)
    requires forall x :: 1 <= x ==> !IsEndAt(post, x, name[|StartPrefix|..])
    ensures var r := Render(post, tags, e, Corrected);
      Render(pre + open + name + close + post, tags, e, Corrected) == Output(pre + r.text, r.tags)
  {
    ScanUnmatchedFirst(pre, open, name, close, post, "", tags, e, Corrected);
    assert "" + pre == pre;
  }

  /** As written, a template of one character of the Basic Multilingual
      Plane renders to nothing; corrected, it is copied. */
  lemma OneCharacterLost(c: char, tags: Tags, e: Expander)
    requires !IsMarkerChar(c) && (c as int) < 0x1_0000
    ensures Render([c], tags, e, AsWritten).text == ""
    ensures Render([c], tags, e, Corrected).text == [c]
  {
    Utf16LengthOne(c);
    RenderNoMarkers([c], tags, e, AsWritten);
    RenderNoMarkers([c], tags, e, Corrected);
  }

  /** A character outside the Basic Multilingual Plane is two code units
      long, so even as written a template of just that character is
      copied. */
  lemma SurrogatePairKept(c: char, tags: Tags, e: Expander)
    requires (c as int) >= 0x1_0000
    ensures Render([c], tags, e, AsWritten).text == [c]
  {
    Utf16LengthOne(c);
    RenderNoMarkers([c], tags, e, AsWritten);
  }

  /** As written, the one character after the last tag is lost; corrected,
      it is copied. */
  lemma LastCharacterAfterTagLost(pre: string, open: string, name: string, close: string, c: char,
                                  tags: Tags, e: Expander)
    requires TagParts(open, name, close) && NoMarkerChars(pre) && !IsMarkerChar(c) && (c as int) < 0x1_0000
    ensures Render(pre + open + name + close + [c], tags, e, AsWritten).text == pre + Lookup(tags, name)
    ensures Render(pre + open + name + close + [c], tags, e, Corrected).text == pre + Lookup(tags, name) + [c]
  {
    Utf16LengthOne(c);
    ScanTagFirst(pre, open, name, close, [c], "", tags, e, AsWritten);
    ScanTagFirst(pre, open, name, close, [c], "", tags, e, Corrected);
    RenderNoMarkers([c], tags, e, AsWritten);
    RenderNoMarkers([c], tags, e, Corrected);
    assert "" + pre == pre;
  }

  /** No closing marker in a text without marker characters. */
  lemma NoEndInFreeText(t: string, name: string)
    requires NoMarkerChars(t)
    ensures forall x :: !IsEndAt(t, x, name)
  {
  }

  /** As written, the text before a start marker with no block is copied
      twice, the second time together with the marker; corrected, it is
      copied once and the marker renders as nothing. */
  lemma UnmatchedStartRepeatsText(pre: string, open: string, name: string, close: string, post: string,
                                  tags: Tags, e: Expander)
    requires MarkerParts(open, name, close) && OpensBlock(name)
    requires NoMarkerChars(pre) && NoMarkerChars(post)
    ensures Render(pre + open + name + close + post, tags, e, AsWritten).text
         == pre + (pre + (open + name + close) + post)
    ensures Render(pre + open + name + close + post, tags, e, Corrected).text == pre + post
  {
    var marker := open + name + close;
    NoEndInFreeText(post, name[|StartPrefix|..]);
    MarkerCharsStartMarkers(post, 0);
    ScanUnmatchedFirst(pre, open, name, close, post, "", tags, e, AsWritten);
    assert "" + pre == pre;
    CorrectedUnmatchedDropped(pre, open, name, close, post, tags, e);
    RenderNoMarkers(post, tags, e, Corrected);
  }

  /* ---------------- the tag map ---------------- */

  /** `b` agrees with `a` on every tag the images table does not set. */
  predicate SameOutside(a: Tags, b: Tags)
  {
    && (forall k :: k in a && k !in ImageKeys ==> k in b && b[k] == a[k])
    && (forall k :: k in b && k !in ImageKeys ==> k in a)
  }

  /** `e` sets no tag but those of the images table. */
  ghost predicate KeepsOthers(e: Expander)
  {
    forall c, g :: SameOutside(g, e(c, g).tags)
  }

  lemma SameOutsideTrans(a: Tags, b: Tags, c: Tags)
    requires SameOutside(a, b) && SameOutside(b, c)
    ensures SameOutside(a, c)
  {
  }

  /** Only the images table writes to the tag map, so a rendering changes no
      tag outside those it sets. */
  lemma {:induction false} RenderKeepsOthers(t: string, tags: Tags, e: Expander, v: Variant)
    requires KeepsOthers(e)
    ensures SameOutside(tags, Render(t, tags, e, v).tags)
    decreases |t|, 1, 0
  {
    ScanKeepsOthers(t, "", tags, e, v);
  }

  lemma {:induction false} InnerKeepsOthers(content: string, name: string, tags: Tags, e: Expander, v: Variant)
    requires KeepsOthers(e)
    ensures SameOutside(tags, Inner(content, name, tags, e, v).tags)
    decreases |content|, 2, 0
  {
    if name != ImagesTableName {
      RenderKeepsOthers(content, tags, e, v);
    }
  }

  lemma {:induction false} ScanKeepsOthers(s: string, pending: string, tags: Tags, e: Expander, v: Variant)
    requires KeepsOthers(e)
    ensures SameOutside(tags, Scan(s, pending, tags, e, v).tags)
    decreases |s|, 0, 1
  {
    match FindMarker(s, 0)
    case None =>
    case Some(m) =>
      StepKeepsOthers(s, m, pending, tags, e, v);
  }

  lemma {:induction false} StepKeepsOthers(s: string, m: Marker, pending: string, tags: Tags, e: Expander, v: Variant)
    requires m.End() <= |s| && KeepsOthers(e)
    ensures SameOutside(tags, Step(s, m, pending, tags, e, v).tags)
    decreases |s|, 0, 0
  {
    if !m.IsBlockStart() {
      StepTag(s, m, pending, tags, e, v);
      ScanKeepsOthers(s[m.End()..], "", tags, e, v);
    } else if FindBlock(s, m).None? {
      var lit := pending + s[..m.pos];
      var marker := s[m.pos..m.End()];
      StepUnmatched(s, m, pending, tags, e, v);
      ScanKeepsOthers(s[m.End()..], if v.AsWritten? then lit + marker else "", tags, e, v);
    } else {
      var b := FindBlock(s, m).value;
      var out := Inner(Trim(Content(s, m, b)), m.BlockName(), tags, e, v);
      StepMatchedBlock(s, m, b, pending, tags, e, v);
      InnerKeepsOthers(Trim(Content(s, m, b)), m.BlockName(), tags, e, v);
      ScanKeepsOthers(s[m.pos + b.len..], "", out.tags, e, v);
      SameOutsideTrans(tags, out.tags, Scan(s[m.pos + b.len..], "", out.tags, e, v).tags);
    }
  }

  /** A rendering keeps the tag map free of marker characters when the
      images table does. */
  lemma {:induction false} RenderKeepsFree(t: string, tags: Tags, e: Expander, v: Variant)
    requires KeepsFree(e) && ValuesFree(tags)
    ensures ValuesFree(Render(t, tags, e, v).tags)
    decreases |t|, 1, 0
  {
    ScanKeepsFree(t, "", tags, e, v);
  }

  lemma {:induction false} InnerKeepsFree(content: string, name: string, tags: Tags, e: Expander, v: Variant)
    requires KeepsFree(e) && ValuesFree(tags)
    ensures ValuesFree(Inner(content, name, tags, e, v).tags)
    decreases |content|, 2, 0
  {
    if name != ImagesTableName {
      RenderKeepsFree(content, tags, e, v);
    }
  }

  lemma {:induction false} ScanKeepsFree(s: string, pending: string, tags: Tags, e: Expander, v: Variant)
    requires KeepsFree(e) && ValuesFree(tags)
    ensures ValuesFree(Scan(s, pending, tags, e, v).tags)
    decreases |s|, 0, 1
  {
    match FindMarker(s, 0)
    case None =>
    case Some(m) =>
      StepKeepsFree(s, m, pending, tags, e, v);
  }

  lemma {:induction false} StepKeepsFree(s: string, m: Marker, pending: string, tags: Tags, e: Expander, v: Variant)
    requires m.End() <= |s| && KeepsFree(e) && ValuesFree(tags)
    ensures ValuesFree(Step(s, m, pending, tags, e, v).tags)
    decreases |s|, 0, 0
  {
    if !m.IsBlockStart() {
      StepTag(s, m, pending, tags, e, v);
      ScanKeepsFree(s[m.End()..], "", tags, e, v);
    } else if FindBlock(s, m).None? {
      var lit := pending + s[..m.pos];
      var marker := s[m.pos..m.End()];
      StepUnmatched(s, m, pending, tags, e, v);
      ScanKeepsFree(s[m.End()..], if v.AsWritten? then lit + marker else "", tags, e, v);
    } else {
      var b := FindBlock(s, m).value;
      var out := Inner(Trim(Content(s, m, b)), m.BlockName(), tags, e, v);
      StepMatchedBlock(s, m, b, pending, tags, e, v);
      InnerKeepsFree(Trim(Content(s, m, b)), m.BlockName(), tags, e, v);
      ScanKeepsFree(s[m.pos + b.len..], "", out.tags, e, v);
    }
  }

  /* ---------------- the renderer with the images table ---------------- */

  /** The images table of item source `src`. It is applied to maps free of
      marker characters only: those are what a rendering from such a map
      passes on (`RenderKeepsFree`). */
  function Images(src: Source): Expander
  {
    (c: string, g: Tags) =>
      if ValuesFree(g) && SourceOk(src) then ExpandImages(c, g, src) else Output("", g)
  }

  /** What the images table leaves in the map, for a map it is applied to. */
  lemma ImagesTags(src: Source, c: string, g: Tags)
    requires ValuesFree(g)
    ensures ValuesFree(Images(src)(c, g).tags) && SameOutside(g, Images(src)(c, g).tags)
  {
    if SourceOk(src) {
      var r := ExpandImages(c, g, src);
      assert Images(src)(c, g) == r;
    }
  }

  lemma ImagesKeepsFree(src: Source)
    ensures KeepsFree(Images(src))
  {
    forall c, g | ValuesFree(g)
      ensures ValuesFree(Images(src)(c, g).tags)
    {
      ImagesTags(src, c, g);
    }
  }

  lemma ImagesKeepsOthers(src: Source)
    ensures KeepsOthers(Images(src))
  {
    forall c, g
      ensures SameOutside(g, Images(src)(c, g).tags)
    {
      if ValuesFree(g) {
        ImagesTags(src, c, g);
      }
    }
  }

  /** `Parser::parse` on template `t` with the images of `src`: the text and
      the tag map after it. The map stays free of marker characters, and
      only the tags of the images table change. */
  function Parse(t: string, tags: Tags, src: Source, v: Variant): (r: Output)
    requires ValuesFree(tags) && SourceOk(src)
    ensures ValuesFree(r.tags)
    ensures SameOutside(tags, r.tags)
  {
    ImagesKeepsFree(src);
    ImagesKeepsOthers(src);
    RenderKeepsFree(t, tags, Images(src), v);
    RenderKeepsOthers(t, tags, Images(src), v);
    Render(t, tags, Images(src), v)
  }

  /** An images table block after marker-free text renders to the expansion
      of its trimmed content, and the text after it is rendered with the
      tags the last item left in the map. */
  lemma ParseImagesTable(pre: string, open: string, close: string, c: string,
                         eopen: string, eclose: string, post: string,
                         tags: Tags, src: Source, v: Variant)
    requires ValuesFree(tags) && SourceOk(src)
    requires MarkerParts(open, StartPrefix + ImagesTableName, close) && NoMarkerChars(pre)
    requires eopen == "@" || eopen == "$("
    requires eclose == "@" || eclose == ")"
    requires |c| >= 1
    requires forall x :: 1 <= x < |c| ==> !IsEndAt(c + (eopen + EndPrefix + ImagesTableName + eclose) + post, x, ImagesTableName)
    ensures var out := ExpandImages(Trim(c), tags, src);
      var r := Render(post, out.tags, Images(src), v);
      Parse(pre + open + (StartPrefix + ImagesTableName) + close + c + (eopen + EndPrefix + ImagesTableName + eclose) + post, tags, src, v)
      == Output(pre + out.text + r.text, r.tags)
  {
    var name := StartPrefix + ImagesTableName;
    assert OpensBlock(name) && name[|StartPrefix|..] == ImagesTableName;
    ScanBlockFirst(pre, open, name, close, c, eopen, eclose, post, "", tags, Images(src), v);
    assert "" + pre == pre;
  }
}
