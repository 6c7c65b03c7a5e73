/** The pieces of Go's `strings` package that the proxy relies on, over Dafny
    strings. A Go string is a sequence of bytes; where the proxy handles raw
    connection bytes, a byte is a char below 256. */
module Strings {
  import opened Wrappers

  /** One byte of a Go string or a `[]byte`. */
  type byte = c: char | c as int < 256 witness 'a'

  // ----- whitespace -----

  /** The ASCII white space of Go's `unicode.IsSpace`: '\t', '\n', '\v', '\f', '\r', ' '.
      A single byte is white space for `strings.Fields` exactly when it is one of these. */
  predicate IsAsciiSpace(c: char) {
    c == ' ' || c == '\t' || c == '\n' || c == '\U{000B}' || c == '\U{000C}' || c == '\r'
  }

  /** Go's `unicode.IsSpace`: the ASCII set plus U+0085, U+00A0 and the Unicode
      White_Space characters above U+00FF. */
  predicate IsUnicodeSpace(c: char) {
    || IsAsciiSpace(c)
    || c == '\U{0085}' || c == '\U{00A0}' || c == '\U{1680}'
    || ('\U{2000}' <= c <= '\U{200A}')
    || c == '\U{2028}' || c == '\U{2029}' || c == '\U{202F}' || c == '\U{205F}' || c == '\U{3000}'
  }

  predicate AllUnicodeSpace(s: string) {
    forall i :: 0 <= i < |s| ==> IsUnicodeSpace(s[i])
  }

  predicate HasNoSpace(w: string) {
    forall i :: 0 <= i < |w| ==> !IsAsciiSpace(w[i])
  }

  /** Text made of white space only (possibly none). */
  predicate AllSpace(sp: string) {
    forall i :: 0 <= i < |sp| ==> IsAsciiSpace(sp[i])
  }

  // ----- strings.TrimSpace -----

  /** The suffix of `s` left after dropping its leading white space. */
  function TrimLeftSpace(s: string): (r: string)
    ensures |r| <= |s| && r == s[|s| - |r|..]
    ensures forall i :: 0 <= i < |s| - |r| ==> IsUnicodeSpace(s[i])
    ensures r != [] ==> !IsUnicodeSpace(r[0])
    decreases |s|
  {
    if s != [] && IsUnicodeSpace(s[0]) then TrimLeftSpace(s[1..]) else s
  }

  /** The prefix of `s` left after dropping its trailing white space. */
  function TrimRightSpace(s: string): (r: string)
    ensures |r| <= |s| && r == s[..|r|]
    ensures forall i :: |r| <= i < |s| ==> IsUnicodeSpace(s[i])
    ensures r != [] ==> !IsUnicodeSpace(r[|r| - 1])
    decreases |s|
  {
    if s != [] && IsUnicodeSpace(s[|s| - 1]) then TrimRightSpace(s[..|s| - 1]) else s
  }

  /** `strings.TrimSpace`: the slice of `s` between its leading and its trailing
      white space; empty exactly when `s` is all white space. */
  function TrimSpace(s: string): (r: string)
    ensures exists i: nat :: TrimmedAt(s, r, i)
    ensures r != [] ==> !IsUnicodeSpace(r[0]) && !IsUnicodeSpace(r[|r| - 1])
    ensures r == [] <==> AllUnicodeSpace(s)
  {
    var left := TrimLeftSpace(s);
    var r := TrimRightSpace(left);
    TrimSpaceSlices(s, left, r);
    assert TrimmedAt(s, r, |s| - |left|);
    r
  }

  /** `r` is the slice of `s` at `i`, and only white space surrounds it. */
  predicate TrimmedAt(s: string, r: string, i: nat) {
    i + |r| <= |s| && r == s[i..i + |r|] && AllUnicodeSpace(s[..i]) && AllUnicodeSpace(s[i + |r|..])
  }

  lemma TrimSpaceSlices(s: string, left: string, r: string)
    requires left == TrimLeftSpace(s) && r == TrimRightSpace(left)
    ensures 0 <= |s| - |left| <= |s| - |r|
    ensures r == s[|s| - |left|..|s| - |left| + |r|]
    ensures AllUnicodeSpace(s[..|s| - |left|]) && AllUnicodeSpace(s[|s| - |left| + |r|..])
    ensures r == [] <==> AllUnicodeSpace(s)
  {
    TrimmedSlices(s, left, r);
  }

  /** What the two trims promise, put together on `s`; stated without the trims
      themselves so that the solver does not unfold them. */
  lemma TrimmedSlices(s: string, left: string, r: string)
    requires |left| <= |s| && left == s[|s| - |left|..]
    requires forall k :: 0 <= k < |s| - |left| ==> IsUnicodeSpace(s[k])
    requires |r| <= |left| && r == left[..|r|]
    requires forall k :: |r| <= k < |left| ==> IsUnicodeSpace(left[k])
    requires r != [] ==> !IsUnicodeSpace(r[0])
    ensures r == s[|s| - |left|..|s| - |left| + |r|]
    ensures AllUnicodeSpace(s[..|s| - |left|]) && AllUnicodeSpace(s[|s| - |left| + |r|..])
    ensures r == [] <==> AllUnicodeSpace(s)
  {
    var i := |s| - |left|;
    var head, tail := s[..i], s[i + |r|..];
    forall k | 0 <= k < |head| ensures IsUnicodeSpace(head[k]) {
      assert head[k] == s[k];
    }
    forall k | 0 <= k < |tail| ensures IsUnicodeSpace(tail[k]) {
      assert tail[k] == left[|r| + k];
    }
    if r == [] {
      forall k | 0 <= k < |s| ensures IsUnicodeSpace(s[k]) {
        if k >= i { assert s[k] == left[k - i]; }
      }
    } else {
      assert s[i] == r[0];
    }
  }

  // ----- strings.Fields, on bytes -----

  /** `s` without its leading ASCII white space. */
  function SkipSpace(s: string): (r: string)
    ensures |r| <= |s| && r == s[|s| - |r|..]
    ensures forall i :: 0 <= i < |s| - |r| ==> IsAsciiSpace(s[i])
    ensures r != [] ==> !IsAsciiSpace(r[0])
    decreases |s|
  {
    if s != [] && IsAsciiSpace(s[0]) then SkipSpace(s[1..]) else s
  }

  /** The longest prefix of `s` holding no white space. */
  function Word(s: string): (w: string)
    ensures |w| <= |s| && w == s[..|w|] && HasNoSpace(w)
    ensures |w| < |s| ==> IsAsciiSpace(s[|w|])
    ensures s != [] && !IsAsciiSpace(s[0]) ==> w != []
  {
    if s == [] || IsAsciiSpace(s[0]) then [] else [s[0]] + Word(s[1..])
  }

  /** `strings.Fields`: the maximal runs of non-white-space bytes of `s`, in order. */
  function Fields(s: string): (fs: seq<string>)
    ensures forall i :: 0 <= i < |fs| ==> fs[i] != [] && HasNoSpace(fs[i])
    decreases |s|
  {
    var t := SkipSpace(s);
    if t == [] then []
    else
      var w := Word(t);
      var fs := Fields(t[|w|..]);
      ConsWords(w, fs);
      [w] + fs
  }

  /** A non-empty word put in front of fields keeps them fields. */
  lemma ConsWords(w: string, fs: seq<string>)
    requires w != [] && HasNoSpace(w)
    requires forall i :: 0 <= i < |fs| ==> fs[i] != [] && HasNoSpace(fs[i])
    ensures forall i :: 0 <= i < |[w] + fs| ==> ([w] + fs)[i] != [] && HasNoSpace(([w] + fs)[i])
  {
  }

  /** `s` with every white-space byte removed: the reference that `Fields` is checked against. */
  function RemoveSpace(s: string): (r: string)
    ensures HasNoSpace(r)
  {
    if s == [] then [] else (if IsAsciiSpace(s[0]) then [] else [s[0]]) + RemoveSpace(s[1..])
  }

  /** The strings of `ws` one after the other: the fields glued back together, or the
      bytes of a sequence of reads in order. */
  function Concat<T>(ws: seq<seq<T>>): seq<T> {
    if ws == [] then [] else ws[0] + Concat(ws[1..])
  }

  lemma {:induction false} RemoveSpaceAppend(a: string, b: string)
    ensures RemoveSpace(a + b) == RemoveSpace(a) + RemoveSpace(b)
    decreases |a|
  {
    if a != [] {
      assert (a + b)[1..] == a[1..] + b;
      RemoveSpaceAppend(a[1..], b);
    } else {
      assert a + b == b;
    }
  }

  lemma {:induction false} RemoveSpaceOfSpaces(s: string)
    requires forall i :: 0 <= i < |s| ==> IsAsciiSpace(s[i])
    ensures RemoveSpace(s) == []
    decreases |s|
  {
    if s != [] { RemoveSpaceOfSpaces(s[1..]); }
  }

  lemma {:induction false} RemoveSpaceOfWord(w: string)
    requires HasNoSpace(w)
    ensures RemoveSpace(w) == w
    decreases |w|
  {
    if w != [] { RemoveSpaceOfWord(w[1..]); }
  }

  /** The fields of `s`, put back together, are exactly the non-white-space bytes of `s`:
      `Fields` loses white space and nothing else, and keeps the order. */
  lemma {:induction false} FieldsKeepAllNonSpace(s: string)
    ensures Concat(Fields(s)) == RemoveSpace(s)
    decreases |s|
  {
    var t := SkipSpace(s);
    SkipSpaceKeepsNonSpace(s);
    if t != [] {
      var w := Word(t);
      var rest := t[|w|..];
      WordKeepsNonSpace(t);
      FieldsKeepAllNonSpace(rest);
      ConcatCons(w, Fields(rest));
    }
  }

  lemma SkipSpaceKeepsNonSpace(s: string)
    ensures RemoveSpace(SkipSpace(s)) == RemoveSpace(s)
  {
    var t := SkipSpace(s);
    var gap := s[..|s| - |t|];
    assert s == gap + t;
    RemoveSpaceOfSpaces(gap);
    RemoveSpaceAppend(gap, t);
  }

  lemma WordKeepsNonSpace(t: string)
    ensures RemoveSpace(t) == Word(t) + RemoveSpace(t[|Word(t)|..])
  {
    var w := Word(t);
    var rest := t[|w|..];
    assert t == w + rest;
    RemoveSpaceAppend(w, rest);
    RemoveSpaceOfWord(w);
  }

  lemma ConcatCons(w: string, ws: seq<string>)
    ensures Concat([w] + ws) == w + Concat(ws)
  {
    assert ([w] + ws)[1..] == ws;
  }

  /** Taking the first string into a prefix leaves the concatenation as it was. */
  lemma ConcatAfter<T>(prefix: seq<T>, ws: seq<seq<T>>)
    requires ws != []
    ensures (prefix + ws[0]) + Concat(ws[1..]) == prefix + Concat(ws)
  {
  }

  lemma {:induction false} WordOfPrefix(w: string, rest: string)
    requires HasNoSpace(w)
    requires rest == [] || IsAsciiSpace(rest[0])
    ensures Word(w + rest) == w
    decreases |w|
  {
    if w == [] {
      assert w + rest == rest;
    } else {
      assert (w + rest)[1..] == w[1..] + rest;
      WordOfPrefix(w[1..], rest);
    }
  }

  /** A word followed by white space (or by nothing) is the first field. */
  lemma FieldsOfWord(w: string, rest: string)
    requires w != [] && HasNoSpace(w)
    requires rest == [] || IsAsciiSpace(rest[0])
    ensures Fields(w + rest) == [w] + Fields(rest)
  {
    assert SkipSpace(w + rest) == w + rest;
    WordOfPrefix(w, rest);
    assert (w + rest)[|w|..] == rest;
  }

  /** Leading white space does not change the fields. */
  lemma FieldsAfterSpace(c: char, s: string)
    requires IsAsciiSpace(c)
    ensures Fields([c] + s) == Fields(s)
  {
    assert ([c] + s)[1..] == s;
  }

  /** A whole run of leading white space does not change the fields. */
  lemma {:induction false} FieldsAfterSpaces(sp: string, s: string)
    requires AllSpace(sp)
    ensures Fields(sp + s) == Fields(s)
    decreases |sp|
  {
    if sp == [] {
      assert sp + s == s;
    } else {
      assert sp + s == [sp[0]] + (sp[1..] + s);
      FieldsAfterSpace(sp[0], sp[1..] + s);
      FieldsAfterSpaces(sp[1..], s);
    }
  }

  // ----- searching -----

  /** `strings.Index` with a one-byte needle, as in `strings.Index(data, "\n")`: the
      first position of `c` in `s`, if any. */
  function IndexOf(s: string, c: char): (r: Option<nat>)
    ensures r.None? <==> c !in s
    ensures r.Some? ==> r.value < |s| && s[r.value] == c && c !in s[..r.value]
  {
    if s == [] then None
    else if s[0] == c then Some(0)
    else
      match IndexOf(s[1..], c)
      case None => None
      case Some(i) =>
        assert s[..i + 1] == [s[0]] + s[1..][..i];
        Some(i + 1)
  }

  /** `IndexOf` finds exactly the first occurrence: a position holding `c` with no
      `c` before it is the answer. */
  lemma {:induction false} IndexOfIs(s: string, c: char, k: nat)
    requires k < |s| && s[k] == c && c !in s[..k]
    ensures IndexOf(s, c) == Some(k)
    decreases k
  {
    if k > 0 {
      assert s[0] in s[..k];
      assert s[1..][..k - 1] == s[..k][1..];
      IndexOfIs(s[1..], c, k - 1);
    }
  }

  /** `strings.HasPrefix`. */
  predicate HasPrefix(s: string, prefix: string) {
    |prefix| <= |s| && s[..|prefix|] == prefix
  }

  predicate OccursAt(s: string, sub: string, i: nat) {
    i + |sub| <= |s| && s[i..i + |sub|] == sub
  }

  /** `strings.Contains`. */
  predicate Contains(s: string, sub: string) {
    exists i: nat | i <= |s| :: OccursAt(s, sub, i)
  }

  /** The regular expression `^\d+$` of Go's RE2: one or more ASCII digits and nothing else. */
  predicate IsDigits(s: string) {
    |s| > 0 && forall i :: 0 <= i < |s| ==> '0' <= s[i] <= '9'
  }
}
