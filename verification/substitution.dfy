/** Tag lookup and the flat substitution loop of `Parser::parseSimple`. */
module Substitution {
  import opened Wrappers
  import opened Text
  import opened Markers

  type Tags = map<string, string>

  /** What a tag with no entry in the map is replaced by. */
  const Undefined: string := "<value not defined>"

  /** The value of tag `name`, or the undefined-value marker. */
  function Lookup(tags: Tags, name: string): (v: string)
    ensures name in tags ==> v == tags[name]
    ensures name !in tags ==> v == Undefined
  {
    if name in tags then tags[name] else Undefined
  }

  /** No tag value contains a character a marker can start with. Under this
      condition every substitution removes marker characters, so the flat
      substitution loop ends. */
  predicate ValuesFree(tags: Tags)
  {
    forall k :: k in tags ==> NoMarkerChars(tags[k])
  }

  lemma LookupFree(tags: Tags, name: string)
    requires ValuesFree(tags)
    ensures NoMarkerChars(Lookup(tags, name))
  {
    if name !in tags {
      assert forall i :: 0 <= i < |Undefined| ==> !IsMarkerChar(Undefined[i]);
    }
  }

  lemma MarkerCharsStartMarkers(t: string, from: nat)
    requires NoMarkerChars(t)
    ensures FindMarker(t, from).None?
  {
    NoOpenerNoMarker(t, from);
  }

  /** `parseSimple`: while the text still holds a marker, take the first one
      and replace every occurrence of its text by the value of its tag
      (capture 3, so `start_block_` is dropped from the key). The loop only
      stops when no marker is left. */
  function Simple(s: string, tags: Tags): (r: string)
    requires ValuesFree(tags)
    ensures FindMarker(r, 0).None?
    ensures FindMarker(s, 0).None? ==> r == s
    ensures MarkerCharCount(r) <= MarkerCharCount(s)
    decreases MarkerCharCount(s)
  {
    match FindMarker(s, 0)
    case None => s
    case Some(m) =>
      FindMarkerLeftmost(s, 0);
      var raw := s[m.pos..m.End()];
      var value := Lookup(tags, m.Key());
      LookupFree(tags, m.Key());
      assert OccursAt(s, raw, m.pos);
      ReplaceAllMarkerCount(s, raw, value);
      Simple(ReplaceAll(s, raw, value), tags)
  }

  /** A character that no occurrence can start with is copied unchanged. */
  lemma ReplaceAllSkipsChar(c: char, y: string, pat: string, rep: string)
    requires |pat| > 0 && IsMarkerChar(pat[0]) && !IsMarkerChar(c)
    ensures ReplaceAll([c] + y, pat, rep) == [c] + ReplaceAll(y, pat, rep)
  {
    var s := [c] + y;
    assert s[1..] == y;
    if |s| >= |pat| {
      assert s[..|pat|][0] == c;
    }
  }

  /** A marker-free text loses no character to a replacement of a pattern
      that starts with a marker character. */
  lemma ReplaceAllSkipsHead(a: string, x: string, pat: string, rep: string)
    requires |pat| > 0 && IsMarkerChar(pat[0]) && |a| > 0 && !IsMarkerChar(a[0])
    ensures ReplaceAll(a + x, pat, rep) == [a[0]] + ReplaceAll(a[1..] + x, pat, rep)
  {
    assert a + x == [a[0]] + (a[1..] + x);
    ReplaceAllSkipsChar(a[0], a[1..] + x, pat, rep);
  }

  /** Replacing a pattern that starts with a marker character leaves a
      marker-free prefix alone. */
  lemma {:induction false} ReplaceAllSkipsFreePrefix(a: string, x: string, pat: string, rep: string)
    requires |pat| > 0 && IsMarkerChar(pat[0]) && NoMarkerChars(a)
    ensures ReplaceAll(a + x, pat, rep) == a + ReplaceAll(x, pat, rep)
    decreases |a|
  {
    if |a| > 0 {
      var b := a[1..];
      assert NoMarkerChars(b) by {
        forall i | 0 <= i < |b| ensures !IsMarkerChar(b[i]) { assert b[i] == a[i + 1]; }
      }
      ReplaceAllSkipsHead(a, x, pat, rep);
      ReplaceAllSkipsFreePrefix(b, x, pat, rep);
      var r := ReplaceAll(x, pat, rep);
      assert [a[0]] + (b + r) == a + r by { assert a == [a[0]] + b; }
    } else {
      assert a + x == x;
    }
  }

  /** The marker text `open + name + close` (closer-free name) placed after a
      marker-free prefix is the first marker of the text. */
  lemma SingleMarkerFound(pre: string, open: string, name: string, close: string, post: string)
    requires open == "@" || open == "$("
    requires close == "@" || close == ")"
    requires |name| >= 1 && forall i :: 0 <= i < |name| ==> !IsClose(name[i])
    requires NoMarkerChars(pre)
    ensures FindMarker(pre + open + name + close + post, 0) == Some(Marker(|pre|, |open|, name))
  {
    var A := pre + open;
    var B := close + post;
    var s := A + name + B;
    assert s == pre + open + name + close + post;
    var p := |pre|;
    var j := |A| + |name|;
    assert s[|A|..j] == name;
    assert s[j] == close[0];
    assert s[p] == open[0] && s[p + 1] == (open + name)[1];
    assert IsOpenAt(s, p) && OpenLen(s, p) == |open|;
    assert forall i :: 0 <= i < p ==> !IsOpenAt(s, i) by {
      forall i | 0 <= i < p ensures !IsOpenAt(s, i) { assert s[i] == pre[i]; }
    }
    assert forall x :: |A| + 1 <= x < j ==> !IsClose(s[x]) by {
      forall x | |A| + 1 <= x < j ensures !IsClose(s[x]) {
        assert s[x] == name[x - |A|];
      }
    }
    assert TagMatch(s, p, |open| + |name| + 1);
    FindMarkerLeftmost(s, 0);
    var m := FindMarker(s, 0).value;
    assert m.pos == p;
    assert m.Len() == |open| + |name| + 1;
  }

  /** A tag marker after marker-free text is the first marker, so the first
      step of `parseSimple` replaces its text by its value everywhere. */
  lemma SimpleFirstTag(tags: Tags, pre: string, open: string, name: string, close: string, post: string)
    requires ValuesFree(tags)
    requires TagParts(open, name, close) && NoMarkerChars(pre)
    ensures var s := pre + open + name + close + post;
      Simple(s, tags) == Simple(ReplaceAll(s, open + name + close, Lookup(tags, name)), tags)
  {
    SingleMarkerFound(pre, open, name, close, post);
    MarkerPieces(pre, open, name, close, post);
    assert Marker(|pre|, |open|, name).Key() == name;
  }

  /** A pattern starting with a marker character does not occur in a
      marker-free text. */
  lemma NoMarkerPatternAbsent(s: string, pat: string, rep: string)
    requires |pat| > 0 && IsMarkerChar(pat[0]) && NoMarkerChars(s)
    ensures ReplaceAll(s, pat, rep) == s
  {
    assert forall i :: OccursAt(s, pat, i) ==> s[i] == pat[0];
    ReplaceAllAbsent(s, pat, rep);
  }

  /** The only occurrence of a marker text amid marker-free text is replaced. */
  lemma ReplaceSingleOccurrence(pre: string, raw: string, post: string, v: string)
    requires |raw| > 0 && IsMarkerChar(raw[0])
    requires NoMarkerChars(pre) && NoMarkerChars(post)
    ensures ReplaceAll(pre + raw + post, raw, v) == pre + v + post
  {
    NoMarkerPatternAbsent(post, raw, v);
    assert (raw + post)[..|raw|] == raw;
    assert (raw + post)[|raw|..] == post;
    assert ReplaceAll(raw + post, raw, v) == v + post;
    assert pre + raw + post == pre + (raw + post);
    ReplaceAllSkipsFreePrefix(pre, raw + post, raw, v);
  }

  /** A text holding exactly one marker, surrounded by marker-free text, is
      rewritten to the value of that marker's tag, or to the undefined-value
      text when the tag has no entry. */
  lemma SimpleSingleTag(tags: Tags, pre: string, open: string, name: string, close: string, post: string)
    requires ValuesFree(tags)
    requires open == "@" || open == "$("
    requires close == "@" || close == ")"
    requires |name| >= 1 && forall i :: 0 <= i < |name| ==> !IsMarkerChar(name[i]) && !IsClose(name[i])
    requires !OpensBlock(name)
    requires NoMarkerChars(pre) && NoMarkerChars(post)
    ensures Simple(pre + open + name + close + post, tags) == pre + Lookup(tags, name) + post
  {
    var raw := open + name + close;
    var s := pre + raw + post;
    var v := Lookup(tags, name);
    var r := pre + v + post;
    assert s == pre + open + name + close + post;
    SingleMarkerFound(pre, open, name, close, post);
    var m := Marker(|pre|, |open|, name);
    assert m.Key() == name;
    assert s[m.pos..m.End()] == raw;
    assert Simple(s, tags) == Simple(ReplaceAll(s, raw, v), tags);
    ReplaceSingleOccurrence(pre, raw, post, v);
    assert Simple(r, tags) == r by {
      LookupFree(tags, name);
      NoMarkerCharsConcat(pre, v);
      NoMarkerCharsConcat(pre + v, post);
      MarkerCharsStartMarkers(r, 0);
    }
  }

  /* ---------------- templates without blocks ---------------- */

  /** The text before a marker, the marker and the text after it are the
      pieces the template was made of. */
  lemma MarkerPieces(pre: string, open: string, name: string, close: string, post: string)
    requires |close| == 1
    ensures var s := pre + open + name + close + post;
      var m := Marker(|pre|, |open|, name);
      && m.End() <= |s|
      && s[..m.pos] == pre
      && s[m.pos..m.End()] == open + name + close
      && s[m.End()..] == post
  {
    var a := pre + open + name + close;
    var s := a + post;
    assert s[..|a|] == a;
    assert a[..|pre|] == pre;
    assert a[|pre|..] == open + name + close;
  }

  /** The parts of a marker: an opener, a name with no closer in it, a
      closer. */
  predicate MarkerParts(open: string, name: string, close: string)
  {
    && (open == "@" || open == "$(")
    && (close == "@" || close == ")")
    && |name| >= 1
    && (forall i :: 0 <= i < |name| ==> !IsClose(name[i]))
  }

  /** The parts of a tag marker, which does not open a block. */
  predicate TagParts(open: string, name: string, close: string)
  {
    MarkerParts(open, name, close) && !OpensBlock(name)
  }

  /** A template with no block: marker-free literals and tag markers. */
  datatype Piece = Piece(lit: string, open: string, name: string, close: string)

  predicate FlatPieces(ps: seq<Piece>)
  {
    forall i :: 0 <= i < |ps| ==> NoMarkerChars(ps[i].lit) && TagParts(ps[i].open, ps[i].name, ps[i].close)
  }

  /** The template text of `ps` followed by `last`. */
  function Join(ps: seq<Piece>, last: string): string
  {
    if |ps| == 0 then last
    else ps[0].lit + ps[0].open + ps[0].name + ps[0].close + Join(ps[1..], last)
  }

  /** Every literal copied, every tag replaced by its value, then `tail`. */
  function Substituted(ps: seq<Piece>, tags: Tags, tail: string): string
  {
    if |ps| == 0 then tail
    else ps[0].lit + Lookup(tags, ps[0].name) + Substituted(ps[1..], tags, tail)
  }

  lemma FlatPiecesTail(ps: seq<Piece>)
    requires |ps| > 0 && FlatPieces(ps)
    ensures FlatPieces(ps[1..])
  {
    assert forall i :: 0 <= i < |ps| - 1 ==> ps[1..][i] == ps[i + 1];
  }

  /* ---------------- parseSimple on a template without blocks ---------------- */

  /** The marker text of a piece's tag. */
  function Raw(p: Piece): string
  {
    p.open + p.name + p.close
  }

  /** No tag name holds a marker character. */
  predicate FreeNames(ps: seq<Piece>)
  {
    forall i :: 0 <= i < |ps| ==> NoMarkerChars(ps[i].name)
  }

  /** Every tag of `ps` opened by `@` has its name in `names`. */
  predicate AtNamesIn(ps: seq<Piece>, names: set<string>)
  {
    forall i :: 0 <= i < |ps| && ps[i].open == "@" ==> ps[i].name in names
  }

  function AtNames(ps: seq<Piece>): set<string>
  {
    set i | 0 <= i < |ps| && ps[i].open == "@" :: ps[i].name
  }

  /** After every tag of `ps` closed by `@`, the substituted rest of the
      template does not begin with any of `names`. */
  predicate SeparatedFrom(ps: seq<Piece>, names: set<string>, tags: Tags, last: string)
    decreases |ps|
  {
    || |ps| == 0
    || (&& (ps[0].close == "@" ==> forall n :: n in names ==> !(n <= Substituted(ps[1..], tags, last)))
        && SeparatedFrom(ps[1..], names, tags, last))
  }

  /** No replacement can match across two markers: an `@` closer followed by
      a name and an `@` never spells a tag that an earlier step replaces. */
  predicate Separated(ps: seq<Piece>, tags: Tags, last: string)
  {
    SeparatedFrom(ps, AtNames(ps), tags, last)
  }

  lemma SeparatedHead(ps: seq<Piece>, names: set<string>, tags: Tags, last: string, n: string)
    requires |ps| > 0 && SeparatedFrom(ps, names, tags, last)
    requires ps[0].close == "@" && n in names
    ensures !(n <= Substituted(ps[1..], tags, last))
  {
  }

  /** The template after every tag whose marker text is `raw` has been
      replaced by `v`: the value merges into the literal that follows. */
  function Absorb(ps: seq<Piece>, raw: string, v: string, last: string): (seq<Piece>, string)
    decreases |ps|
  {
    if |ps| == 0 then ([], last)
    else
      var (rs, rl) := Absorb(ps[1..], raw, v, last);
      if Raw(ps[0]) != raw then ([ps[0]] + rs, rl) else Merge(ps[0].lit + v, rs, rl)
  }

  /** `rs` then `rl` with the text `a` put in front of the first literal. */
  function Merge(a: string, rs: seq<Piece>, rl: string): (seq<Piece>, string)
  {
    if |rs| == 0 then ([], a + rl) else ([rs[0].(lit := a + rs[0].lit)] + rs[1..], rl)
  }

  lemma JoinMerge(a: string, rs: seq<Piece>, rl: string)
    ensures Join(Merge(a, rs, rl).0, Merge(a, rs, rl).1) == a + Join(rs, rl)
  {
    if |rs| > 0 {
      var q := rs[0].(lit := a + rs[0].lit);
      var t := Raw(rs[0]) + Join(rs[1..], rl);
      assert Merge(a, rs, rl) == ([q] + rs[1..], rl);
      JoinCons(q, rs[1..], rl);
      JoinHead(rs, rl);
      assert (a + rs[0].lit) + t == a + (rs[0].lit + t);
    } else {
      assert Merge(a, rs, rl) == ([], a + rl);
    }
  }

  lemma JoinCons(p: Piece, rs: seq<Piece>, rl: string)
    ensures Join([p] + rs, rl) == p.lit + (Raw(p) + Join(rs, rl))
  {
    assert ([p] + rs)[1..] == rs;
  }

  lemma PiecesTail(ps: seq<Piece>, names: set<string>)
    requires |ps| > 0
    ensures FlatPieces(ps) ==> FlatPieces(ps[1..])
    ensures FreeNames(ps) ==> FreeNames(ps[1..])
    ensures AtNamesIn(ps, names) ==> AtNamesIn(ps[1..], names)
  {
    assert forall i :: 0 <= i < |ps| - 1 ==> ps[1..][i] == ps[i + 1];
  }

  /** The marker text determines the tag name. */
  lemma RawName(p: Piece, open: string, name: string, close: string)
    requires MarkerParts(p.open, p.name, p.close) && MarkerParts(open, name, close)
    requires Raw(p) == open + name + close
    ensures p.name == name
  {
    var r := open + name + close;
    assert r[0] == open[0] && Raw(p)[0] == p.open[0];
    assert p.open == open;
    assert r[|open|..|open| + |name|] == name;
    assert Raw(p)[|open|..|open| + |p.name|] == p.name;
  }

  /** A marker text does not match at the start of a different marker. */
  lemma OtherTagStart(open: string, name: string, close: string, p: Piece, y: string)
    requires MarkerParts(open, name, close) && MarkerParts(p.open, p.name, p.close)
    requires open + name + close != Raw(p)
    ensures !OccursAt(Raw(p) + y, open + name + close, 0)
  {
    var raw := open + name + close;
    var w := Raw(p) + y;
    // a position where the marker text and the text at hand differ
    var k: nat;
    if p.open != open {
      k := 0;
    } else if |name| < |p.name| {
      k := |open| + |name|;
      assert w[k] == p.name[|name|] && raw[k] == close[0];
    } else if |name| > |p.name| {
      k := |open| + |p.name|;
      assert w[k] == p.close[0] && raw[k] == name[|p.name|];
    } else if name != p.name {
      var d :| 0 <= d < |name| && name[d] != p.name[d];
      k := |open| + d;
      assert w[k] == p.name[d] && raw[k] == name[d];
    } else {
      k := |open| + |name|;
      assert w[k] == p.close[0] && raw[k] == close[0];
    }
    assert k < |raw| && k < |w| && w[k] != raw[k];
    assert |raw| <= |w| ==> w[..|raw|][k] == w[k];
  }

  /** Past its first character and before its closer, a tag marker with a
      marker-free name holds no marker character, so nothing starting with
      one matches there. */
  lemma TagInside(p: Piece, y: string, pat: string)
    requires MarkerParts(p.open, p.name, p.close) && NoMarkerChars(p.name)
    requires |pat| > 0 && IsMarkerChar(pat[0])
    ensures forall i :: 0 < i < |p.open| + |p.name| ==> !OccursAt(Raw(p) + y, pat, i)
  {
    var w := Raw(p) + y;
    forall i | 0 < i < |p.open| + |p.name| ensures !OccursAt(w, pat, i) {
      if i < |p.open| {
        assert w[i] == '(';
      } else {
        assert w[i] == p.name[i - |p.open|];
      }
    }
  }

  /** A match that starts at a tag's `@` closer spells the pattern's name
      right after the tag. */
  lemma AtCloser(p: Piece, y: string, open: string, name: string, close: string)
    requires MarkerParts(p.open, p.name, p.close) && MarkerParts(open, name, close)
    requires OccursAt(Raw(p) + y, open + name + close, |Raw(p)| - 1)
    ensures p.close == "@" && open == "@"
    ensures |name| <= |y| && y[..|name|] == name
  {
    var raw := open + name + close;
    var w := Raw(p) + y;
    var i := |Raw(p)| - 1;
    assert w[i..i + |raw|] == raw;
    assert w[i] == p.close[0] && raw[0] == open[0];
    assert forall k :: 0 <= k < |name| ==> y[k] == w[i + 1 + k] == raw[1 + k] == name[k];
  }

  /** A marker-free prefix of `a + b`, where `b` starts with a marker
      character, is a prefix of `a`. */
  lemma FreePrefixWithin(n: string, a: string, b: string)
    requires NoMarkerChars(n) && |b| > 0 && IsMarkerChar(b[0])
    requires |n| <= |a + b| && (a + b)[..|n|] == n
    ensures |n| <= |a| && a[..|n|] == n
  {
    assert forall i :: 0 <= i < |n| ==> n[i] == (a + b)[i];
    assert (a + b)[|a|] == b[0];
    assert a[..|n|] == (a + b)[..|n|];
  }

  lemma JoinHead(ps: seq<Piece>, last: string)
    requires |ps| > 0
    ensures Join(ps, last) == ps[0].lit + (Raw(ps[0]) + Join(ps[1..], last))
  {
  }

  lemma SubstitutedHead(ps: seq<Piece>, tags: Tags, last: string)
    requires |ps| > 0
    ensures Substituted(ps, tags, last) == ps[0].lit + (Lookup(tags, ps[0].name) + Substituted(ps[1..], tags, last))
  {
  }

  /** A marker-free text that the template starts with lies within its first
      literal, so the substituted template starts with it too. */
  lemma FreePrefixSubstituted(ps: seq<Piece>, tags: Tags, last: string, n: string)
    requires FlatPieces(ps) && NoMarkerChars(n)
    requires |n| <= |Join(ps, last)| && Join(ps, last)[..|n|] == n
    ensures n <= Substituted(ps, tags, last)
  {
    if |ps| > 0 {
      var a := ps[0].lit;
      var b := Raw(ps[0]) + Join(ps[1..], last);
      JoinHead(ps, last);
      assert TagParts(ps[0].open, ps[0].name, ps[0].close);
      assert b[0] == ps[0].open[0];
      FreePrefixWithin(n, a, b);
      var c := Lookup(tags, ps[0].name) + Substituted(ps[1..], tags, last);
      SubstitutedHead(ps, tags, last);
      assert (a + c)[..|n|] == a[..|n|];
    }
  }

  /** Replacing a marker text that differs from a tag's own copies that tag,
      unless the pattern starts at the tag's `@` closer. */
  lemma SkipOtherTag(p: Piece, y: string, open: string, name: string, close: string, v: string)
    requires MarkerParts(p.open, p.name, p.close) && NoMarkerChars(p.name)
    requires MarkerParts(open, name, close) && open + name + close != Raw(p)
    requires p.close == "@" && open == "@" ==> !(|name| <= |y| && y[..|name|] == name)
    ensures ReplaceAll(Raw(p) + y, open + name + close, v) == Raw(p) + ReplaceAll(y, open + name + close, v)
  {
    var raw := open + name + close;
    var w := Raw(p) + y;
    OtherTagStart(open, name, close, p, y);
    TagInside(p, y, raw);
    forall i | 0 <= i < |Raw(p)| ensures !OccursAt(w, raw, i) {
      if i == |Raw(p)| - 1 && OccursAt(w, raw, i) {
        AtCloser(p, y, open, name, close);
      }
    }
    ReplaceAllSkipsPrefix(Raw(p), y, raw, v);
  }

  /** An occurrence at the very start is replaced. */
  lemma ReplaceAtStart(raw: string, y: string, v: string)
    requires |raw| > 0
    ensures ReplaceAll(raw + y, raw, v) == v + ReplaceAll(y, raw, v)
  {
    assert (raw + y)[..|raw|] == raw;
    assert (raw + y)[|raw|..] == y;
  }

  /** Replacing one tag's marker text everywhere in a separated template
      replaces exactly the tags that carry it. */
  lemma {:induction false} AbsorbJoin(ps: seq<Piece>, last: string, names: set<string>, tags: Tags,
                                      open: string, name: string, close: string, v: string)
    requires FlatPieces(ps) && FreeNames(ps) && NoMarkerChars(last)
    requires MarkerParts(open, name, close) && NoMarkerChars(name) && (open == "@" ==> name in names)
    requires SeparatedFrom(ps, names, tags, last)
    ensures var (qs, ql) := Absorb(ps, open + name + close, v, last);
      ReplaceAll(Join(ps, last), open + name + close, v) == Join(qs, ql)
    decreases |ps|
  {
    var raw := open + name + close;
    if |ps| == 0 {
      NoMarkerPatternAbsent(last, raw, v);
    } else {
      var p := ps[0];
      var j := Join(ps[1..], last);
      PiecesTail(ps, names);
      AbsorbJoin(ps[1..], last, names, tags, open, name, close, v);
      var (rs, rl) := Absorb(ps[1..], raw, v, last);
      assert ps == [p] + ps[1..];
      JoinCons(p, ps[1..], last);
      ReplaceAllSkipsFreePrefix(p.lit, Raw(p) + j, raw, v);
      if Raw(p) == raw {
        ReplaceAtStart(raw, j, v);
        JoinMerge(p.lit + v, rs, rl);
      } else {
        if p.close == "@" && open == "@" {
          SeparatedHead(ps, names, tags, last, name);
          if |name| <= |j| && j[..|name|] == name {
            FreePrefixSubstituted(ps[1..], tags, last, name);
            assert false;
          }
        }
        SkipOtherTag(p, j, open, name, close, v);
        JoinCons(p, rs, rl);
      }
    }
  }

  /** Absorbing removes at least the first tag when it carries `raw`, and
      keeps the template well formed. */
  /** A piece put in front of well-shaped pieces keeps them well shaped. */
  lemma ShapeCons(p: Piece, rs: seq<Piece>, names: set<string>)
    requires NoMarkerChars(p.lit) && TagParts(p.open, p.name, p.close) && NoMarkerChars(p.name)
    requires p.open == "@" ==> p.name in names
    requires FlatPieces(rs) && FreeNames(rs) && AtNamesIn(rs, names)
    ensures FlatPieces([p] + rs) && FreeNames([p] + rs) && AtNamesIn([p] + rs, names)
  {
    var qs := [p] + rs;
    assert forall j :: 0 < j < |qs| ==> qs[j] == rs[j - 1];
  }

  /** Merging a marker-free literal in front keeps the pieces well shaped. */
  lemma ShapeMerge(a: string, rs: seq<Piece>, rl: string, names: set<string>)
    requires NoMarkerChars(a) && NoMarkerChars(rl)
    requires FlatPieces(rs) && FreeNames(rs) && AtNamesIn(rs, names)
    ensures |Merge(a, rs, rl).0| == |rs|
    ensures FlatPieces(Merge(a, rs, rl).0) && FreeNames(Merge(a, rs, rl).0)
    ensures AtNamesIn(Merge(a, rs, rl).0, names) && NoMarkerChars(Merge(a, rs, rl).1)
  {
    if |rs| == 0 {
      NoMarkerCharsConcat(a, rl);
      assert Merge(a, rs, rl) == ([], a + rl);
    } else {
      var q := rs[0].(lit := a + rs[0].lit);
      assert Merge(a, rs, rl) == ([q] + rs[1..], rl);
      NoMarkerCharsConcat(a, rs[0].lit);
      PiecesTail(rs, names);
      ShapeCons(q, rs[1..], names);
    }
  }

  lemma {:induction false} AbsorbShape(ps: seq<Piece>, names: set<string>, raw: string, v: string, last: string)
    requires FlatPieces(ps) && FreeNames(ps) && AtNamesIn(ps, names)
    requires NoMarkerChars(last) && NoMarkerChars(v)
    ensures var (qs, ql) := Absorb(ps, raw, v, last);
      && |qs| <= |ps| && (|ps| > 0 && Raw(ps[0]) == raw ==> |qs| < |ps|)
      && FlatPieces(qs) && FreeNames(qs) && AtNamesIn(qs, names) && NoMarkerChars(ql)
    decreases |ps|
  {
    if |ps| > 0 {
      var p := ps[0];
      PiecesTail(ps, names);
      AbsorbShape(ps[1..], names, raw, v, last);
      var (rs, rl) := Absorb(ps[1..], raw, v, last);
      if Raw(p) != raw {
        assert Absorb(ps, raw, v, last) == ([p] + rs, rl);
        ShapeCons(p, rs, names);
      } else {
        assert Absorb(ps, raw, v, last) == Merge(p.lit + v, rs, rl);
        NoMarkerCharsConcat(p.lit, v);
        ShapeMerge(p.lit + v, rs, rl, names);
      }
    }
  }


  lemma SubstitutedCons(p: Piece, rs: seq<Piece>, tags: Tags, rl: string)
    ensures Substituted([p] + rs, tags, rl) == p.lit + (Lookup(tags, p.name) + Substituted(rs, tags, rl))
  {
    assert ([p] + rs)[1..] == rs;
  }

  lemma SubstitutedMerge(a: string, rs: seq<Piece>, tags: Tags, rl: string)
    ensures var (qs, ql) := Merge(a, rs, rl); Substituted(qs, tags, ql) == a + Substituted(rs, tags, rl)
  {
    if |rs| > 0 {
      var q := rs[0].(lit := a + rs[0].lit);
      var l := Lookup(tags, rs[0].name);
      var t := Substituted(rs[1..], tags, rl);
      assert Merge(a, rs, rl) == ([q] + rs[1..], rl);
      SubstitutedCons(q, rs[1..], tags, rl);
      SubstitutedHead(rs, tags, rl);
      assert (a + rs[0].lit) + (l + t) == a + (rs[0].lit + (l + t));
    } else {
      assert Merge(a, rs, rl) == ([], a + rl);
    }
  }

  /** Absorbing tags whose value is `v` does not change the substituted
      text. */
  lemma {:induction false} AbsorbSubstituted(ps: seq<Piece>, tags: Tags, raw: string, v: string, last: string)
    requires forall i :: 0 <= i < |ps| && Raw(ps[i]) == raw ==> Lookup(tags, ps[i].name) == v
    ensures var (qs, ql) := Absorb(ps, raw, v, last);
      Substituted(qs, tags, ql) == Substituted(ps, tags, last)
    decreases |ps|
  {
    if |ps| > 0 {
      var p := ps[0];
      assert forall i :: 0 <= i < |ps| - 1 ==> ps[1..][i] == ps[i + 1];
      AbsorbSubstituted(ps[1..], tags, raw, v, last);
      var r := Absorb(ps[1..], raw, v, last);
      SubstitutedHead(ps, tags, last);
      if Raw(p) != raw {
        SubstitutedCons(p, r.0, tags, r.1);
      } else {
        SubstitutedMerge(p.lit + v, r.0, tags, r.1);
      }
    }
  }

  /** Absorbing keeps a template separated. */
  lemma {:induction false} AbsorbSeparated(ps: seq<Piece>, names: set<string>, tags: Tags, raw: string, v: string, last: string)
    requires forall i :: 0 <= i < |ps| && Raw(ps[i]) == raw ==> Lookup(tags, ps[i].name) == v
    requires SeparatedFrom(ps, names, tags, last)
    ensures var (qs, ql) := Absorb(ps, raw, v, last);
      SeparatedFrom(qs, names, tags, ql)
    decreases |ps|
  {
    if |ps| > 0 {
      var p := ps[0];
      assert forall i :: 0 <= i < |ps| - 1 ==> ps[1..][i] == ps[i + 1];
      AbsorbSeparated(ps[1..], names, tags, raw, v, last);
      AbsorbSubstituted(ps[1..], tags, raw, v, last);
      var (rs, rl) := Absorb(ps[1..], raw, v, last);
      if Raw(p) != raw {
        assert ([p] + rs)[1..] == rs;
      } else if |rs| > 0 {
        var q := rs[0].(lit := p.lit + v + rs[0].lit);
        assert ([q] + rs[1..])[1..] == rs[1..];
      }
    }
  }

  lemma {:induction false} SimpleFlatFrom(ps: seq<Piece>, last: string, names: set<string>, tags: Tags)
    requires ValuesFree(tags)
    requires FlatPieces(ps) && FreeNames(ps) && NoMarkerChars(last)
    requires AtNamesIn(ps, names) && SeparatedFrom(ps, names, tags, last)
    ensures Simple(Join(ps, last), tags) == Substituted(ps, tags, last)
    decreases |ps|
  {
    var s := Join(ps, last);
    if |ps| == 0 {
      MarkerCharsStartMarkers(last, 0);
    } else {
      var p := ps[0];
      var j := Join(ps[1..], last);
      assert s == p.lit + p.open + p.name + p.close + j;
      SimpleFirstTag(tags, p.lit, p.open, p.name, p.close, j);
      var raw := Raw(p);
      var v := Lookup(tags, p.name);
      LookupFree(tags, p.name);
      AbsorbJoin(ps, last, names, tags, p.open, p.name, p.close, v);
      forall i | 0 <= i < |ps| && Raw(ps[i]) == raw ensures Lookup(tags, ps[i].name) == v {
        RawName(ps[i], p.open, p.name, p.close);
      }
      AbsorbShape(ps, names, raw, v, last);
      AbsorbSubstituted(ps, tags, raw, v, last);
      AbsorbSeparated(ps, names, tags, raw, v, last);
      var (qs, ql) := Absorb(ps, raw, v, last);
      SimpleFlatFrom(qs, ql, names, tags);
    }
  }

  /** `parseSimple` on a template without blocks whose tag names are
      marker-free: when no replacement can match across two markers, the
      result is every literal copied and every tag replaced by its value, in
      order. */
  lemma SimpleFlat(ps: seq<Piece>, last: string, tags: Tags)
    requires ValuesFree(tags)
    requires FlatPieces(ps) && FreeNames(ps) && NoMarkerChars(last)
    requires Separated(ps, tags, last)
    ensures Simple(Join(ps, last), tags) == Substituted(ps, tags, last)
  {
    assert AtNamesIn(ps, AtNames(ps));
    SimpleFlatFrom(ps, last, AtNames(ps), tags);
  }

  /** Replacing `@n@` in `@n@` + `z@` leaves the trailing `@` alone. */
  lemma StraddleTail(raw: string, z: string, v: string)
    requires |raw| >= 2 && IsMarkerChar(raw[0]) && NoMarkerChars(z)
    ensures ReplaceAll(raw + (z + "@"), raw, v) == v + (z + "@")
  {
    ReplaceAllSkipsFreePrefix(z, "@", raw, v);
    assert ReplaceAll("@", raw, v) == "@";
    ReplaceAtStart(raw, z + "@", v);
  }

  /** `@x@` followed by `n@...` is copied up to its closer, where the copy of
      `@n@` starts. */
  lemma StraddleMiddle(n: string, x: string, tail: string, v: string)
    requires TagParts("@", n, "@") && TagParts("@", x, "@") && x != n
    requires NoMarkerChars(x)
    requires ReplaceAll("@" + n + "@" + tail, "@" + n + "@", v) == v + tail
    ensures ReplaceAll(("@" + x + "@") + (n + "@" + tail), "@" + n + "@", v) == ("@" + x) + (v + tail)
  {
    var raw := "@" + n + "@";
    var px := Piece("", "@", x, "@");
    assert raw != Raw(px) by {
      assert raw[1..|raw| - 1] == n && Raw(px)[1..|Raw(px)| - 1] == x;
    }
    var y := n + "@" + tail;
    var w := ("@" + x) + (raw + tail);
    assert Raw(px) + y == w;
    OtherTagStart("@", n, "@", px, y);
    TagInside(px, y, raw);
    assert forall i :: 0 <= i < |"@" + x| ==> !OccursAt(w, raw, i);
    ReplaceAllSkipsPrefix("@" + x, raw + tail, raw, v);
  }

  /** Replacing `@n@` in `@n@@x@n@z@` also replaces the copy of it running
      from the closer of `@x@` to the opener of `@z@`. */
  lemma StraddleReplaced(n: string, x: string, z: string, v: string)
    requires TagParts("@", n, "@") && TagParts("@", x, "@") && x != n
    requires NoMarkerChars(n) && NoMarkerChars(x) && NoMarkerChars(z)
    ensures var raw := "@" + n + "@";
      ReplaceAll(raw + (("@" + x + "@") + (n + "@" + (z + "@"))), raw, v) == v + "@" + (x + v + z) + "@"
  {
    var raw := "@" + n + "@";
    var tail := z + "@";
    StraddleTail(raw, z, v);
    assert raw + tail == "@" + n + "@" + tail;
    StraddleMiddle(n, x, tail, v);
    ReplaceAtStart(raw, ("@" + x + "@") + (n + "@" + tail), v);
  }

  /** The template `@n@@x@n@z@`. */
  function StraddlePieces(n: string, x: string, z: string): seq<Piece>
  {
    [Piece("", "@", n, "@"), Piece("", "@", x, "@"), Piece(n, "@", z, "@")]
  }

  lemma StraddleJoin(n: string, x: string, z: string)
    ensures Join(StraddlePieces(n, x, z), "") == "@" + n + "@" + (("@" + x + "@") + (n + "@" + (z + "@")))
  {
    var ps := StraddlePieces(n, x, z);
    assert ps[1..][1..] == ps[2..];
    assert Join(ps[2..], "") == n + "@" + z + "@" + "";
  }

  /** Where an `@` closer, a tag name and the next `@` spell an earlier tag
      (`@n@@x@n@z@`), `parseSimple` replaces that spelling too: the two
      markers it cuts through become one tag named `x`, value of `n`, `z`. */
  lemma SimpleStraddle(tags: Tags, n: string, x: string, z: string)
    requires ValuesFree(tags)
    requires TagParts("@", n, "@") && TagParts("@", x, "@") && x != n
    requires NoMarkerChars(n) && NoMarkerChars(x) && NoMarkerChars(z)
    requires TagParts("@", x + Lookup(tags, n) + z, "@")
    ensures var v := Lookup(tags, n);
      Simple(Join(StraddlePieces(n, x, z), ""), tags) == v + Lookup(tags, x + v + z)
  {
    var v := Lookup(tags, n);
    var m := x + v + z;
    StraddleFirstPass(tags, n, x, z);
    LookupFree(tags, n);
    NoMarkerCharsConcat(x, v);
    NoMarkerCharsConcat(x + v, z);
    SimpleSingleTag(tags, v, "@", m, "@", "");
    assert v + "@" + m + "@" + "" == v + "@" + m + "@";
    assert v + Lookup(tags, m) + "" == v + Lookup(tags, m);
  }

  /** The first pass of the straddling example replaces `@n@` twice, and the
      text that is left is one marker for the merged name. */
  lemma StraddleFirstPass(tags: Tags, n: string, x: string, z: string)
    requires ValuesFree(tags)
    requires TagParts("@", n, "@") && TagParts("@", x, "@") && x != n
    requires NoMarkerChars(n) && NoMarkerChars(x) && NoMarkerChars(z)
    ensures var v := Lookup(tags, n);
      Simple(Join(StraddlePieces(n, x, z), ""), tags) == Simple(v + "@" + (x + v + z) + "@", tags)
  {
    var v := Lookup(tags, n);
    var r1 := ("@" + x + "@") + (n + "@" + (z + "@"));
    StraddleText(n, x, z, v);
    SimpleFirstTag(tags, "", "@", n, "@", r1);
  }

  /** The text of the straddling example, and what replacing `@n@` by `v`
      makes of it. */
  lemma StraddleText(n: string, x: string, z: string, v: string)
    requires TagParts("@", n, "@") && TagParts("@", x, "@") && x != n
    requires NoMarkerChars(n) && NoMarkerChars(x) && NoMarkerChars(z)
    ensures var s := "" + "@" + n + "@" + (("@" + x + "@") + (n + "@" + (z + "@")));
      && Join(StraddlePieces(n, x, z), "") == s
      && ReplaceAll(s, "@" + n + "@", v) == v + "@" + (x + v + z) + "@"
  {
    var r1 := ("@" + x + "@") + (n + "@" + (z + "@"));
    StraddleJoin(n, x, z);
    assert "" + "@" + n + "@" + r1 == "@" + n + "@" + r1;
    StraddleReplaced(n, x, z, v);
  }

  /** With `x` and the merged name both undefined, the result of
      `parseSimple` on `@n@@x@n@z@` is shorter than the substituted
      template, which keeps the literal `n` between the last two values. */
  lemma StraddleDiffers(tags: Tags, n: string, x: string, z: string)
    requires ValuesFree(tags)
    requires TagParts("@", n, "@") && TagParts("@", x, "@") && x != n
    requires NoMarkerChars(n) && NoMarkerChars(x) && NoMarkerChars(z)
    requires TagParts("@", x + Lookup(tags, n) + z, "@")
    requires x !in tags && x + Lookup(tags, n) + z !in tags
    ensures Simple(Join(StraddlePieces(n, x, z), ""), tags) != Substituted(StraddlePieces(n, x, z), tags, "")
  {
    var ps := StraddlePieces(n, x, z);
    SimpleStraddle(tags, n, x, z);
    assert ps[1..][1..] == ps[2..] && ps[2..][1..] == [];
    assert Substituted(ps[2..], tags, "") == n + Lookup(tags, z) + "";
    assert Substituted(ps[1..], tags, "") == "" + Undefined + Substituted(ps[2..], tags, "");
    assert Substituted(ps, tags, "") == "" + Lookup(tags, n) + Substituted(ps[1..], tags, "");
  }

  /** In `@n@@x@n@z@` the closer of `@x@` is followed by the name `n`. */
  lemma StraddleNotSeparated(tags: Tags, n: string, x: string, z: string)
    ensures !Separated(StraddlePieces(n, x, z), tags, "")
  {
    var ps := StraddlePieces(n, x, z);
    var names := AtNames(ps);
    assert ps[0].open == "@";
    assert n in names;
    assert ps[1..][1..] == ps[2..];
    assert Substituted(ps[2..], tags, "") == n + (Lookup(tags, z) + "");
    if SeparatedFrom(ps, names, tags, "") {
      SeparatedHead(ps[1..], names, tags, "", n);
    }
  }
}
