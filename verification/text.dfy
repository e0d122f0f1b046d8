/** String operations the parser borrows from QString: substring search
    (`contains`), replace-all (`replace`), and whitespace trimming (`trimmed`),
    plus the count of tag-marker characters used as the termination measure of
    the flat substitution loop. */
module Text {

  /* ---------------- substring search ---------------- */

  /** `pat` occurs in `s` starting at index `i`. */
  predicate OccursAt(s: string, pat: string, i: int)
  {
    0 <= i && i + |pat| <= |s| && s[i..i + |pat|] == pat
  }

  /** `QString::contains`: `sub` occurs somewhere in `s`. */
  function Contains(s: string, sub: string): (b: bool)
    ensures b <==> exists i :: OccursAt(s, sub, i)
    decreases |s|
  {
    if |s| < |sub| then
      assert forall i :: !OccursAt(s, sub, i);
      false
    else if s[..|sub|] == sub then
      assert OccursAt(s, sub, 0);
      true
    else
      var b := Contains(s[1..], sub);
      assert forall i :: OccursAt(s[1..], sub, i) <==> OccursAt(s, sub, i + 1);
      assert forall i :: OccursAt(s, sub, i) ==> i == 0 || OccursAt(s[1..], sub, i - 1);
      b
  }

  /* ---------------- replace-all ---------------- */

  /** `QString::replace(pat, rep)`: every non-overlapping occurrence of `pat`,
      found left to right, is replaced by `rep`. */
  function ReplaceAll(s: string, pat: string, rep: string): (r: string)
    requires |pat| > 0
    decreases |s|
  {
    if |s| < |pat| then s
    else if s[..|pat|] == pat then rep + ReplaceAll(s[|pat|..], pat, rep)
    else [s[0]] + ReplaceAll(s[1..], pat, rep)
  }

  /** A text in which the pattern does not occur is left unchanged. */
  lemma {:induction false} ReplaceAllAbsent(s: string, pat: string, rep: string)
    requires |pat| > 0 && forall i :: !OccursAt(s, pat, i)
    ensures ReplaceAll(s, pat, rep) == s
    decreases |s|
  {
    if |s| >= |pat| {
      assert !OccursAt(s, pat, 0);
      assert forall i :: OccursAt(s[1..], pat, i) ==> OccursAt(s, pat, i + 1);
      ReplaceAllAbsent(s[1..], pat, rep);
      assert s == [s[0]] + s[1..];
    }
  }

  /** An occurrence moves one place right when a character is put in front. */
  lemma OccursAtCons(c: char, t: string, pat: string, i: nat)
    ensures OccursAt(t, pat, i) <==> OccursAt([c] + t, pat, i + 1)
  {
    if i + |pat| <= |t| {
      assert ([c] + t)[i + 1..i + 1 + |pat|] == t[i..i + |pat|];
    }
  }

  /** Replacing in a text that does not start with the pattern copies its
      first character. */
  lemma ReplaceAllNotAtStart(s: string, pat: string, rep: string)
    requires |pat| > 0 && |s| > 0 && !OccursAt(s, pat, 0)
    ensures ReplaceAll(s, pat, rep) == [s[0]] + ReplaceAll(s[1..], pat, rep)
  {
    if |s| < |pat| {
      assert ReplaceAll(s[1..], pat, rep) == s[1..];
      assert s == [s[0]] + s[1..];
    }
  }

  /** A prefix at none of whose positions the pattern occurs is copied; the
      replacement goes on after it. */
  lemma {:induction false} ReplaceAllSkipsPrefix(x: string, y: string, pat: string, rep: string)
    requires |pat| > 0
    requires forall i :: 0 <= i < |x| ==> !OccursAt(x + y, pat, i)
    ensures ReplaceAll(x + y, pat, rep) == x + ReplaceAll(y, pat, rep)
    decreases |x|
  {
    if |x| == 0 {
      assert x + y == y;
    } else {
      var t := x[1..] + y;
      assert x + y == [x[0]] + t;
      forall i | 0 <= i < |x| - 1 ensures !OccursAt(t, pat, i) {
        OccursAtCons(x[0], t, pat, i);
      }
      ReplaceAllSkipsPrefix(x[1..], y, pat, rep);
      ReplaceAllNotAtStart(x + y, pat, rep);
      assert (x + y)[1..] == t;
      assert x == [x[0]] + x[1..];
    }
  }

  /** Every occurrence of the character `c` written as `rep`, every other
      character copied, one character at a time. */
  function ExpandChar(s: string, c: char, rep: string): (r: string)
    ensures c !in s ==> r == s
    decreases |s|
  {
    if |s| == 0 then ""
    else
      var r := (if s[0] == c then rep else [s[0]]) + ExpandChar(s[1..], c, rep);
      assert c !in s ==> s == [s[0]] + s[1..];
      r
  }

  /** Replacing a one-character pattern writes out every occurrence of that
      character and keeps everything else. */
  lemma {:induction false} ReplaceAllChar(s: string, c: char, rep: string)
    ensures ReplaceAll(s, [c], rep) == ExpandChar(s, c, rep)
    decreases |s|
  {
    if |s| > 0 {
      ReplaceAllChar(s[1..], c, rep);
      assert s[..1] == [s[0]];
    }
  }

  /* ---------------- length in UTF-16 code units ---------------- */

  /** The length `QString` reports: a character outside the Basic
      Multilingual Plane is stored as two UTF-16 code units. */
  function Utf16Length(s: string): (n: nat)
    ensures |s| <= n <= 2 * |s|
    decreases |s|
  {
    if |s| == 0 then 0
    else (if (s[0] as int) < 0x1_0000 then 1 else 2) + Utf16Length(s[1..])
  }

  lemma Utf16LengthOne(c: char)
    ensures Utf16Length([c]) == (if (c as int) < 0x1_0000 then 1 else 2)
  {
    assert [c][1..] == [];
  }

  /* ---------------- marker characters ---------------- */

  /** The characters every tag marker starts with: `@` and the `$` of `$(`. */
  predicate IsMarkerChar(c: char)
  {
    c == '@' || c == '$'
  }

  function MarkerCharCount(s: string): nat
    decreases |s|
  {
    if |s| == 0 then 0
    else (if IsMarkerChar(s[0]) then 1 else 0) + MarkerCharCount(s[1..])
  }

  predicate NoMarkerChars(s: string)
  {
    forall i :: 0 <= i < |s| ==> !IsMarkerChar(s[i])
  }

  lemma {:induction false} NoMarkerCharsCount(s: string)
    ensures NoMarkerChars(s) <==> MarkerCharCount(s) == 0
    decreases |s|
  {
    if |s| > 0 {
      NoMarkerCharsCount(s[1..]);
      assert NoMarkerChars(s) ==> NoMarkerChars(s[1..]);
      if MarkerCharCount(s) == 0 {
        assert forall i :: 1 <= i < |s| ==> s[i] == s[1..][i - 1];
      }
    }
  }

  lemma {:induction false} MarkerCharCountConcat(a: string, b: string)
    ensures MarkerCharCount(a + b) == MarkerCharCount(a) + MarkerCharCount(b)
    decreases |a|
  {
    if |a| > 0 {
      assert (a + b)[1..] == a[1..] + b;
      MarkerCharCountConcat(a[1..], b);
    } else {
      assert a + b == b;
    }
  }

  lemma NoMarkerCharsConcat(a: string, b: string)
    requires NoMarkerChars(a) && NoMarkerChars(b)
    ensures NoMarkerChars(a + b)
  {
    NoMarkerCharsCount(a);
    NoMarkerCharsCount(b);
    MarkerCharCountConcat(a, b);
    NoMarkerCharsCount(a + b);
  }

  /** Replacing by a marker-free text never adds marker characters, and
      replacing an occurring pattern that starts with a marker character
      strictly removes some: the variant of the substitution loop. */
  lemma {:induction false} ReplaceAllMarkerCount(s: string, pat: string, rep: string)
    requires |pat| > 0 && NoMarkerChars(rep)
    ensures MarkerCharCount(ReplaceAll(s, pat, rep)) <= MarkerCharCount(s)
    ensures IsMarkerChar(pat[0]) && (exists i :: OccursAt(s, pat, i)) ==>
      MarkerCharCount(ReplaceAll(s, pat, rep)) < MarkerCharCount(s)
    decreases |s|
  {
    NoMarkerCharsCount(rep);
    if |s| < |pat| {
      assert forall i :: !OccursAt(s, pat, i);
    } else if s[..|pat|] == pat {
      var tail := s[|pat|..];
      ReplaceAllMarkerCount(tail, pat, rep);
      MarkerCharCountConcat(rep, ReplaceAll(tail, pat, rep));
      assert s == pat + tail;
      MarkerCharCountConcat(pat, tail);
      assert MarkerCharCount(pat) >= 1 <== IsMarkerChar(pat[0]);
    } else {
      var tail := s[1..];
      ReplaceAllMarkerCount(tail, pat, rep);
      MarkerCharCountConcat([s[0]], ReplaceAll(tail, pat, rep));
      assert s == [s[0]] + tail;
      MarkerCharCountConcat([s[0]], tail);
      assert forall i :: OccursAt(s, pat, i) ==> i >= 1 && OccursAt(tail, pat, i - 1);
    }
  }

  lemma {:induction false} ReplaceAllNoMarkerChars(s: string, pat: string, rep: string)
    requires |pat| > 0 && NoMarkerChars(s) && NoMarkerChars(rep)
    ensures NoMarkerChars(ReplaceAll(s, pat, rep))
  {
    ReplaceAllMarkerCount(s, pat, rep);
    NoMarkerCharsCount(s);
    NoMarkerCharsCount(ReplaceAll(s, pat, rep));
  }

  /* ---------------- trimming ---------------- */

  /** `QChar::isSpace`: tab, line feed, vertical tab, form feed, carriage
      return, NEL, and the Unicode space, line and paragraph separators as
      Qt 4 classifies them (U+180E, the Mongolian vowel separator, among
      them). */
  predicate IsSpace(c: char)
  {
    || ('\t' <= c <= '\r') || c == ' ' || c == '\U{85}' || c == '\U{A0}'
    || c == '\U{1680}' || c == '\U{180E}' || ('\U{2000}' <= c <= '\U{200A}')
    || c == '\U{2028}' || c == '\U{2029}' || c == '\U{202F}' || c == '\U{205F}'
    || c == '\U{3000}'
  }

  function TrimStart(s: string): (n: nat)
    ensures n <= |s|
    ensures forall i :: 0 <= i < n ==> IsSpace(s[i])
    ensures n < |s| ==> !IsSpace(s[n])
    decreases |s|
  {
    if |s| == 0 || !IsSpace(s[0]) then 0 else 1 + TrimStart(s[1..])
  }

  function TrimEnd(s: string): (n: nat)
    ensures n <= |s|
    ensures forall i :: n <= i < |s| ==> IsSpace(s[i])
    ensures n > 0 ==> !IsSpace(s[n - 1])
    decreases |s|
  {
    if |s| == 0 || !IsSpace(s[|s| - 1]) then |s| else TrimEnd(s[..|s| - 1])
  }

  /** `QString::trimmed`: the longest infix that neither starts nor ends with
      whitespace, everything cut off being whitespace. */
  function Trim(s: string): (r: string)
    ensures exists a, b ::
              && 0 <= a <= b <= |s| && r == s[a..b]
              && (forall i :: 0 <= i < a ==> IsSpace(s[i]))
              && (forall i :: b <= i < |s| ==> IsSpace(s[i]))
    ensures |r| > 0 ==> !IsSpace(r[0]) && !IsSpace(r[|r| - 1])
    ensures |r| <= |s|
  {
    var a := TrimStart(s);
    if a == |s| then
      assert s[|s|..|s|] == "";
      ""
    else
      var b := a + TrimEnd(s[a..]);
      assert b > a;
      s[a..b]
  }
}
