/**
 The string primitives the answer policy relies on: case folding, whitespace
 stripping, substring search, and joining / splitting on a separator.
 Strings are sequences of Unicode scalar values, so `|s|` is the code-point
 length that Python's `len` reports.
 */
module Text {

  /** The code points Python's `str.isspace` accepts, which is the set that
      `str.strip()` removes when it is called without arguments. */
  predicate IsSpace(c: char) {
    || ('\t' <= c <= '\r')                  // TAB, LF, VT, FF, CR
    || ('\U{1C}' <= c <= '\U{1F}')          // file, group, record and unit separators
    || c == ' '
    || c == '\U{85}'                        // NEXT LINE
    || c == '\U{A0}'                        // NO-BREAK SPACE
    || c == '\U{1680}'                      // OGHAM SPACE MARK
    || ('\U{2000}' <= c <= '\U{200A}')      // EN QUAD .. HAIR SPACE
    || c == '\U{2028}' || c == '\U{2029}'   // line and paragraph separators
    || c == '\U{202F}' || c == '\U{205F}' || c == '\U{3000}'
  }

  ghost predicate AllSpace(s: string) {
    forall i :: 0 <= i < |s| ==> IsSpace(s[i])
  }

  predicate IsUpperAscii(c: char) {
    'A' <= c <= 'Z'
  }

  function LowerChar(c: char): (d: char)
    ensures !IsUpperAscii(d)
    ensures IsUpperAscii(c) ==> d as int == c as int + 32
    ensures !IsUpperAscii(c) ==> d == c
  {
    if IsUpperAscii(c) then (c as int + 32) as char else c
  }

  /** ASCII case folding: every code point is kept, upper-case ASCII letters
      are replaced by their lower-case forms. */
  function Lower(s: string): (r: string)
    ensures |r| == |s|
    ensures forall i :: 0 <= i < |s| ==> r[i] == LowerChar(s[i])
    ensures forall i :: 0 <= i < |r| ==> !IsUpperAscii(r[i])
  {
    seq(|s|, i requires 0 <= i < |s| => LowerChar(s[i]))
  }

  lemma LowerIdempotent(s: string)
    ensures Lower(Lower(s)) == Lower(s)
  {
  }

  // ---------------------------------------------------------------------
  // Stripping

  /** The first index at or after `lo` that does not hold whitespace, or
      `|s|`; everything from `lo` up to it is whitespace. */
  function SpaceRunEnd(s: string, lo: nat): (n: nat)
    requires lo <= |s|
    ensures lo <= n <= |s|
    ensures SpaceIn(s, lo, n)
    ensures n == |s| || !IsSpace(s[n])
    decreases |s| - lo
  {
    if lo < |s| && IsSpace(s[lo]) then SpaceRunEnd(s, lo + 1) else lo
  }

  /** The least index `m` at or after `lo` such that `s[m..hi]` is all
      whitespace. */
  function SpaceRunStart(s: string, lo: nat, hi: nat): (m: nat)
    requires lo <= hi <= |s|
    ensures lo <= m <= hi
    ensures SpaceIn(s, m, hi)
    ensures m == lo || !IsSpace(s[m - 1])
    decreases hi - lo
  {
    if lo < hi && IsSpace(s[hi - 1]) then SpaceRunStart(s, lo, hi - 1) else hi
  }

  ghost predicate SpaceIn(s: string, lo: int, hi: int)
    requires 0 <= lo && hi <= |s|
  {
    forall k :: lo <= k < hi ==> IsSpace(s[k])
  }

  /** Python's argument-less `str.strip()`: the slice of `s` left once the
      whitespace on both ends is removed. */
  function Strip(s: string): (r: string)
    ensures |r| <= |s|
    ensures r == [] || (!IsSpace(r[0]) && !IsSpace(r[|r| - 1]))
    ensures exists i :: 0 <= i <= |s| - |r| && s[i..i + |r|] == r
                        && SpaceIn(s, 0, i) && SpaceIn(s, i + |r|, |s|)
    ensures r == [] <==> AllSpace(s)
  {
    var i := SpaceRunEnd(s, 0);
    var j := SpaceRunStart(s, i, |s|);
    assert i < j ==> !IsSpace(s[j - 1]);
    s[i..j]
  }

  /** Stripping whitespace padding off a string with non-space ends gives
      that string back: `Strip` picks out the unique such slice. */
  lemma {:induction false} StripPadded(pre: string, t: string, post: string)
    requires AllSpace(pre) && AllSpace(post)
    requires t == [] || (!IsSpace(t[0]) && !IsSpace(t[|t| - 1]))
    ensures Strip(pre + t + post) == t
  {
    var s := pre + t + post;
    var a, b := |pre|, |pre| + |t|;
    assert SpaceIn(s, 0, a) by {
      forall k | 0 <= k < a ensures IsSpace(s[k]) { assert s[k] == pre[k]; }
    }
    assert SpaceIn(s, b, |s|) by {
      forall k | b <= k < |s| ensures IsSpace(s[k]) { assert s[k] == post[k - b]; }
    }
    if t == [] {
      SpaceRunEndFrom(s, 0, |s|);
    } else {
      assert s[a] == t[0] && s[b - 1] == t[|t| - 1];
      SpaceRunEndFrom(s, 0, a);
      SpaceRunStartFrom(s, a, |s|, b);
      assert s[a..b] == t;
    }
  }

  /** `SpaceRunEnd` finds exactly the end of the whitespace run. */
  lemma {:induction false} SpaceRunEndFrom(s: string, lo: nat, n: nat)
    requires lo <= n <= |s|
    requires SpaceIn(s, lo, n)
    requires n == |s| || !IsSpace(s[n])
    ensures SpaceRunEnd(s, lo) == n
    decreases n - lo
  {
    if lo < n {
      assert IsSpace(s[lo]);
      SpaceRunEndFrom(s, lo + 1, n);
    }
  }

  /** `SpaceRunStart` finds exactly the start of the trailing whitespace run. */
  lemma {:induction false} SpaceRunStartFrom(s: string, lo: nat, hi: nat, m: nat)
    requires lo <= m <= hi <= |s|
    requires SpaceIn(s, m, hi)
    requires m == lo || !IsSpace(s[m - 1])
    ensures SpaceRunStart(s, lo, hi) == m
    decreases hi - lo
  {
    if m < hi {
      assert IsSpace(s[hi - 1]);
      SpaceRunStartFrom(s, lo, hi - 1, m);
    }
  }

  lemma StripIdempotent(s: string)
    ensures Strip(Strip(s)) == Strip(s)
  {
    var r := Strip(s);
    if r != [] {
      assert !IsSpace(r[0]) && !IsSpace(r[|r| - 1]);
      SpaceRunEndFrom(r, 0, 0);
      SpaceRunStartFrom(r, 0, |r|, |r|);
      assert r[0..|r|] == r;
    }
  }

  // ---------------------------------------------------------------------
  // Substring search

  ghost predicate OccursAt(hay: string, needle: string, k: int) {
    0 <= k && k + |needle| <= |hay| && hay[k..k + |needle|] == needle
  }

  /** Python's `needle in hay` for strings. */
  function Contains(hay: string, needle: string): (b: bool)
    ensures b <==> exists k :: OccursAt(hay, needle, k)
    decreases |hay|
  {
    if |hay| < |needle| then
      assert forall k :: !OccursAt(hay, needle, k);
      false
    else if hay[..|needle|] == needle then
      assert OccursAt(hay, needle, 0);
      true
    else
      var b := Contains(hay[1..], needle);
      OccursShift(hay, needle);
      b
  }

  /** An occurrence past the first position of `hay` is an occurrence in
      `hay[1..]`, one position earlier, and back. */
  lemma OccursShift(hay: string, needle: string)
    requires hay != []
    requires |hay| < |needle| || hay[..|needle|] != needle
    ensures (exists k :: OccursAt(hay, needle, k)) <==> (exists k :: OccursAt(hay[1..], needle, k))
  {
    forall k | OccursAt(hay[1..], needle, k) ensures OccursAt(hay, needle, k + 1) {
      assert hay[k + 1..k + 1 + |needle|] == hay[1..][k..k + |needle|];
    }
    if |needle| <= |hay| {
      assert hay[0..|needle|] == hay[..|needle|];
    }
    assert !OccursAt(hay, needle, 0);
    forall k | OccursAt(hay, needle, k) && k > 0 ensures OccursAt(hay[1..], needle, k - 1) {
      var tail := hay[1..];
      assert k - 1 + |needle| <= |tail|;
      assert tail[k - 1..k - 1 + |needle|] == hay[k..k + |needle|];
    }
  }

  // ---------------------------------------------------------------------
  // Concatenation and slicing

  lemma ConcatAssoc(a: string, b: string, c: string)
    ensures a + b + c == a + (b + c)
  {
  }

  /** A slice of `b` is the same slice of `a + b`, shifted by `|a|`. */
  lemma SliceRight(a: string, b: string, x: nat, y: nat)
    requires x <= y <= |b|
    ensures (a + b)[|a| + x..|a| + y] == b[x..y]
  {
  }

  /** A string is its three slices at two ascending cuts. */
  lemma ThreeSlices(s: string, i: nat, j: nat)
    requires i <= j <= |s|
    ensures s == s[..i] + s[i..j] + s[j..]
  {
  }

  /** Each part of a five-part concatenation is the slice at its offset. */
  lemma FiveParts(a: string, b: string, c: string, d: string, e: string)
    ensures var s := a + b + c + d + e;
            && |s| == |a| + |b| + |c| + |d| + |e|
            && s[..|a|] == a
            && s[|a|..|a| + |b|] == b
            && s[|a| + |b|..|a| + |b| + |c|] == c
            && s[|a| + |b| + |c|..|s| - |e|] == d
            && s[|s| - |e|..] == e
  {
  }

  /** A string that holds `head` at its start, `middle` `n` characters
      later and `tail` at its end is those three parts around the two
      slices between them. */
  lemma Reassemble(p: string, head: string, middle: string, tail: string, n: nat)
    requires |p| >= |head| + n + |middle| + |tail|
    requires p[..|head|] == head
    requires p[|head| + n..|head| + n + |middle|] == middle
    requires p[|p| - |tail|..] == tail
    ensures p == head + p[|head|..|head| + n] + middle + p[|head| + n + |middle|..|p| - |tail|] + tail
  {
    var j := |head| + n;
    var k := j + |middle|;
    var l := |p| - |tail|;
    assert p[..|head|] + p[|head|..j] == p[..j];
    assert p[..j] + p[j..k] == p[..k];
    assert p[..k] + p[k..l] == p[..l];
    assert p[..l] + p[l..] == p;
  }

  // ---------------------------------------------------------------------
  // Joining and splitting

  /** Python's `sep.join(parts)`. */
  function Join(parts: seq<string>, sep: string): (r: string)
    ensures parts == [] ==> r == []
    ensures |parts| == 1 ==> r == parts[0]
  {
    if |parts| == 0 then []
    else if |parts| == 1 then parts[0]
    else parts[0] + sep + Join(parts[1..], sep)
  }

  /** Where the `i`-th part starts in `Join(parts, sep)`: every earlier part
      and one separator after each. */
  function JoinOffset(parts: seq<string>, sep: string, i: nat): nat
    requires i <= |parts|
  {
    if i == 0 then 0 else |parts[0]| + |sep| + JoinOffset(parts[1..], sep, i - 1)
  }

  /** The joined text is every part at its offset, in order, with the
      separator between consecutive parts and nothing else. */
  lemma JoinPieces(parts: seq<string>, sep: string)
    requires parts != []
    ensures |Join(parts, sep)| == JoinOffset(parts, sep, |parts| - 1) + |parts[|parts| - 1]|
    ensures forall i :: 0 <= i < |parts| ==>
              var start := JoinOffset(parts, sep, i);
              && start + |parts[i]| <= |Join(parts, sep)|
              && Join(parts, sep)[start..start + |parts[i]|] == parts[i]
    ensures forall i :: 0 <= i < |parts| - 1 ==>
              var end := JoinOffset(parts, sep, i) + |parts[i]|;
              && end + |sep| <= |Join(parts, sep)|
              && Join(parts, sep)[end..end + |sep|] == sep
  {
    JoinLength(parts, sep);
    forall i | 0 <= i < |parts|
      ensures var start := JoinOffset(parts, sep, i);
              && start + |parts[i]| <= |Join(parts, sep)|
              && Join(parts, sep)[start..start + |parts[i]|] == parts[i]
    {
      JoinPart(parts, sep, i);
    }
    forall i | 0 <= i < |parts| - 1
      ensures var end := JoinOffset(parts, sep, i) + |parts[i]|;
              && end + |sep| <= |Join(parts, sep)|
              && Join(parts, sep)[end..end + |sep|] == sep
    {
      JoinSeparator(parts, sep, i);
    }
  }

  lemma {:induction false} JoinLength(parts: seq<string>, sep: string)
    requires parts != []
    ensures |Join(parts, sep)| == JoinOffset(parts, sep, |parts| - 1) + |parts[|parts| - 1]|
    decreases |parts|
  {
    if |parts| > 1 {
      var rest := parts[1..];
      JoinLength(rest, sep);
      assert rest[|rest| - 1] == parts[|parts| - 1];
    }
  }

  lemma {:induction false} JoinPart(parts: seq<string>, sep: string, i: nat)
    requires i < |parts|
    ensures var start := JoinOffset(parts, sep, i);
            && start + |parts[i]| <= |Join(parts, sep)|
            && Join(parts, sep)[start..start + |parts[i]|] == parts[i]
    decreases i
  {
    if |parts| == 1 {
      assert Join(parts, sep)[0..|parts[0]|] == parts[0];
    } else {
      var rest := parts[1..];
      var tail := Join(rest, sep);
      var head := parts[0] + sep;
      assert Join(parts, sep) == head + tail;
      if i == 0 {
        assert (head + tail)[0..|parts[0]|] == parts[0];
      } else {
        var start := JoinOffset(rest, sep, i - 1);
        assert JoinOffset(parts, sep, i) == |head| + start;
        JoinPart(rest, sep, i - 1);
        assert rest[i - 1] == parts[i];
        SliceRight(head, tail, start, start + |parts[i]|);
      }
    }
  }

  lemma {:induction false} JoinSeparator(parts: seq<string>, sep: string, i: nat)
    requires i + 1 < |parts|
    ensures var end := JoinOffset(parts, sep, i) + |parts[i]|;
            && end + |sep| <= |Join(parts, sep)|
            && Join(parts, sep)[end..end + |sep|] == sep
    decreases i
  {
    var rest := parts[1..];
    var tail := Join(rest, sep);
    var head := parts[0] + sep;
    assert Join(parts, sep) == head + tail;
    if i == 0 {
      assert (head + tail)[|parts[0]|..|parts[0]| + |sep|] == sep;
    } else {
      var end := JoinOffset(rest, sep, i - 1) + |rest[i - 1]|;
      assert JoinOffset(parts, sep, i) + |parts[i]| == |head| + end;
      JoinSeparator(rest, sep, i - 1);
      SliceRight(head, tail, end, end + |sep|);
    }
  }

  /** Python's `s.split(c)` for a one-character separator: the pieces between
      the occurrences of `c`, always at least one. */
  function Split(s: string, c: char): (r: seq<string>)
    ensures |r| >= 1
    ensures forall i :: 0 <= i < |r| ==> c !in r[i]
    decreases |s|
  {
    if s == [] then [[]]
    else
      var rest := Split(s[1..], c);
      if s[0] == c then [[]] + rest
      else [[s[0]] + rest[0]] + rest[1..]
  }

  /** Splitting a string on `c` and joining the pieces with `c` gives the
      string back. */
  lemma {:induction false} JoinSplit(s: string, c: char)
    ensures Join(Split(s, c), [c]) == s
    decreases |s|
  {
    if s != [] {
      var rest := Split(s[1..], c);
      JoinSplit(s[1..], c);
      if s[0] == c {
        assert Split(s, c) == [[]] + rest;
        assert ([[]] + rest)[1..] == rest;
        assert Join(Split(s, c), [c]) == [] + [c] + Join(rest, [c]);
        assert s == [s[0]] + s[1..];
      } else {
        JoinCons(s[0], rest, c);
        assert s == [s[0]] + s[1..];
      }
    }
  }

  lemma {:induction false} JoinCons(x: char, parts: seq<string>, c: char)
    requires |parts| >= 1
    ensures Join([[x] + parts[0]] + parts[1..], [c]) == [x] + Join(parts, [c])
  {
    var ps := [[x] + parts[0]] + parts[1..];
    var sep := [c];
    if |parts| == 1 {
      assert ps == [[x] + parts[0]];
    } else {
      assert ps[1..] == parts[1..];
      var tail := Join(parts[1..], sep);
      calc {
        Join(ps, sep);
        ps[0] + sep + tail;
        ([x] + parts[0]) + sep + tail;
        { ConcatAssoc([x], parts[0], sep + tail); }
        [x] + (parts[0] + sep + tail);
        [x] + Join(parts, sep);
      }
    }
  }

  /** Joining pieces that do not contain `c` with `c` and splitting the
      result on `c` gives the pieces back. `"".join([])` is `""`, which
      splits into one empty piece, so the list must not be empty. */
  lemma {:induction false} SplitJoin(parts: seq<string>, c: char)
    requires parts != []
    requires forall i :: 0 <= i < |parts| ==> c !in parts[i]
    ensures Split(Join(parts, [c]), c) == parts
    decreases |parts|
  {
    if |parts| == 1 {
      SplitFree(parts[0], [], c);
      assert parts[0] + [] == parts[0];
    } else {
      var tail := Join(parts[1..], [c]);
      SplitJoin(parts[1..], c);
      SplitFree(parts[0], [c] + tail, c);
      assert parts[0] + [c] + tail == parts[0] + ([c] + tail);
      assert ([c] + tail)[1..] == tail;
      assert [[]] + parts[1..] == Split([c] + tail, c);
      assert parts[0] + [] == parts[0];
      assert [parts[0]] + parts[1..] == parts;
    }
  }

  /** A separator-free prefix is glued onto the first piece of the rest. */
  lemma {:induction false} SplitFree(p: string, s: string, c: char)
    requires c !in p
    ensures Split(p + s, c) == [p + Split(s, c)[0]] + Split(s, c)[1..]
    decreases |p|
  {
    if p == [] {
      var pieces := Split(s, c);
      assert p + s == s;
      assert p + pieces[0] == pieces[0];
      assert pieces == [pieces[0]] + pieces[1..];
    } else {
      var whole := p + s;
      var rest := Split(whole[1..], c);
      var pieces := Split(s, c);
      assert whole[0] == p[0] && p[0] != c;
      assert whole[1..] == p[1..] + s;
      SplitFree(p[1..], s, c);
      assert rest[0] == p[1..] + pieces[0];
      assert rest[1..] == pieces[1..];
      assert Split(whole, c) == [[p[0]] + rest[0]] + rest[1..];
      assert [p[0]] + (p[1..] + pieces[0]) == p + pieces[0];
    }
  }
}
