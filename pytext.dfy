/**
 * The few Python `str` operations the listing parser relies on, with Python's meaning:
 * `str.isspace`, `str.strip()`, `p in s`, `s.replace(p, "")`, `s.split(sep)` and `s.split()`.
 * Strings are sequences of Unicode code points, as Python's `str` is.
 */
module PyText {
  import opened Wrappers

  /** Python's `str.isspace` for one code point: the set `strip()` and `split()` treat as whitespace. */
  predicate IsSpace(c: char) {
    c == ' ' || ('\t' <= c <= '\r') || ('\U{1C}' <= c <= '\U{1F}') || c == '\U{85}' || c == '\U{A0}'
    || c == '\U{1680}' || ('\U{2000}' <= c <= '\U{200A}') || c == '\U{2028}' || c == '\U{2029}'
    || c == '\U{202F}' || c == '\U{205F}' || c == '\U{3000}'
  }

  predicate AllSpace(s: string) {
    forall i :: 0 <= i < |s| ==> IsSpace(s[i])
  }

  predicate NoSpace(s: string) {
    forall i :: 0 <= i < |s| ==> !IsSpace(s[i])
  }

  // ---------------------------------------------------------------- strip

  /** `s.lstrip()`: what is left after the leading whitespace. */
  function TrimStart(s: string): (r: string)
    ensures |r| <= |s| && r == s[|s| - |r|..]
    ensures AllSpace(s[..|s| - |r|])
    ensures r == [] || !IsSpace(r[0])
    decreases |s|
  {
    if |s| > 0 && IsSpace(s[0]) then
      var r := TrimStart(s[1..]);
      assert s[1..][|s| - 1 - |r|..] == s[|s| - |r|..];
      var skipped := s[..|s| - |r|];
      var rest := s[1..][..|s| - 1 - |r|];
      forall i | 0 <= i < |skipped| ensures IsSpace(skipped[i]) {
        if i > 0 {
          assert skipped[i] == rest[i - 1];
        }
      }
      r
    else s
  }

  /** `s.strip()`: the text between the leading and the trailing whitespace. */
  function Strip(s: string): (r: string)
    ensures |r| <= |s|
    ensures r == [] || (!IsSpace(r[0]) && !IsSpace(r[|r| - 1]))
    decreases |s|
  {
    if |s| > 0 && IsSpace(s[0]) then Strip(s[1..])
    else if |s| > 0 && IsSpace(s[|s| - 1]) then Strip(s[..|s| - 1])
    else s
  }

  /** `r` is `s` with `k` whitespace code points before it and only whitespace after it. */
  predicate StripsTo(s: string, r: string, k: int) {
    0 <= k && k + |r| <= |s| && s[k..k + |r|] == r && AllSpace(s[..k]) && AllSpace(s[k + |r|..])
  }

  /** What `strip()` returns is a slice of its argument with only whitespace around it. */
  lemma {:induction false} StripSpec(s: string)
    ensures exists k :: StripsTo(s, Strip(s), k)
    decreases |s|
  {
    var r := Strip(s);
    if |s| > 0 && IsSpace(s[0]) {
      StripSpec(s[1..]);
      var k :| StripsTo(s[1..], r, k);
      SpaceInFront(s, r, k);
    } else if |s| > 0 && IsSpace(s[|s| - 1]) {
      StripSpec(s[..|s| - 1]);
      var k :| StripsTo(s[..|s| - 1], r, k);
      SpaceBehind(s, r, k);
    } else {
      assert s[0..|s|] == s;
      assert StripsTo(s, s, 0);
    }
  }

  lemma SpaceInFront(s: string, r: string, k: int)
    requires |s| > 0 && IsSpace(s[0]) && StripsTo(s[1..], r, k)
    ensures StripsTo(s, r, k + 1)
  {
    var t := s[1..];
    assert s[k + 1..k + 1 + |r|] == t[k..k + |r|];
    var front := s[..k + 1];
    forall i | 0 <= i < |front| ensures IsSpace(front[i]) {
      if i > 0 {
        assert front[i] == t[..k][i - 1];
      }
    }
    assert s[k + 1 + |r|..] == t[k + |r|..];
  }

  lemma SpaceBehind(s: string, r: string, k: int)
    requires |s| > 0 && IsSpace(s[|s| - 1]) && StripsTo(s[..|s| - 1], r, k)
    ensures StripsTo(s, r, k)
  {
    var t := s[..|s| - 1];
    assert s[k..k + |r|] == t[k..k + |r|];
    assert s[..k] == t[..k];
    var back := s[k + |r|..];
    forall i | 0 <= i < |back| ensures IsSpace(back[i]) {
      if i < |back| - 1 {
        assert back[i] == t[k + |r|..][i];
      }
    }
  }

  /** Text already free of surrounding whitespace is what `strip()` returns when the whitespace is added back. */
  lemma {:induction false} StripExact(pre: string, x: string, post: string)
    requires AllSpace(pre) && AllSpace(post)
    requires x == [] || (!IsSpace(x[0]) && !IsSpace(x[|x| - 1]))
    ensures Strip(pre + x + post) == x
    decreases |pre| + |post|
  {
    var s := pre + x + post;
    if pre != [] {
      assert s[0] == pre[0];
      assert s[1..] == pre[1..] + x + post;
      StripExact(pre[1..], x, post);
    } else if x != [] {
      assert s[0] == x[0];
      if post == [] {
        assert s == x;
      } else {
        assert s[|s| - 1] == post[|post| - 1];
        assert s[..|s| - 1] == pre + x + post[..|post| - 1];
        StripExact(pre, x, post[..|post| - 1]);
      }
    } else if post != [] {
      assert s == post;
      assert s[1..] == pre + x + post[1..];
      StripExact(pre, x, post[1..]);
    } else {
      assert s == [];
    }
  }

  // ---------------------------------------------------------------- substring search

  /** `p` occurs in `s` starting at index `i`. */
  predicate OccursAt(s: string, p: string, i: int) {
    0 <= i && i + |p| <= |s| && s[i..i + |p|] == p
  }

  /** Python's `p in s`. */
  predicate Contains(s: string, p: string) {
    exists i :: 0 <= i <= |s| - |p| && OccursAt(s, p, i)
  }

  /** A pattern whose first code point does not appear in `s` does not occur in it. */
  lemma AbsentFirstChar(s: string, p: string)
    requires |p| > 0 && p[0] !in s
    ensures !Contains(s, p)
  {
    forall i | 0 <= i <= |s| - |p| ensures !OccursAt(s, p, i) {
      assert s[i..i + |p|][0] == s[i] != p[0];
    }
  }

  /** An occurrence inside a slice is an occurrence in the whole string. */
  lemma ContainsWithin(s: string, k: int, len: int, p: string)
    requires 0 <= k && 0 <= len && k + len <= |s| && Contains(s[k..k + len], p)
    ensures Contains(s, p)
  {
    var t := s[k..k + len];
    var i :| 0 <= i <= len - |p| && OccursAt(t, p, i);
    forall j | 0 <= j < |p| ensures s[k + i + j] == p[j] {
      assert t[i..i + |p|][j] == t[i + j] == s[k + i + j];
    }
    assert s[k + i..k + i + |p|] == p;
    assert OccursAt(s, p, k + i);
  }

  /** Stripping whitespace never removes an occurrence of a pattern that holds no whitespace. */
  lemma ContainsStrip(s: string, p: string)
    requires |p| > 0 && NoSpace(p) && Contains(s, p)
    ensures Contains(Strip(s), p)
  {
    var r := Strip(s);
    StripSpec(s);
    var k :| StripsTo(s, r, k);
    var i :| 0 <= i <= |s| - |p| && OccursAt(s, p, i);
    OccurrenceInside(s, r, k, p, i);
  }

  lemma OccurrenceInside(s: string, r: string, k: int, p: string, i: int)
    requires StripsTo(s, r, k) && |p| > 0 && NoSpace(p) && OccursAt(s, p, i)
    ensures OccursAt(r, p, i - k)
  {
    var last := i + |p| - 1;
    assert !IsSpace(s[i]) && !IsSpace(s[last]) by {
      assert s[i..i + |p|][0] == s[i] && s[i..i + |p|][|p| - 1] == s[last];
    }
    InsideStrip(s, r, k, i);
    InsideStrip(s, r, k, last);
    forall j | 0 <= j < |p| ensures r[i - k + j] == p[j] {
      assert r[i - k + j] == s[k..k + |r|][i - k + j] == s[i + j];
      assert s[i..i + |p|][j] == s[i + j];
    }
    assert r[i - k..i - k + |p|] == p;
  }

  /** Stripping keeps every code point that is not whitespace. */
  lemma StripKeeps(s: string, c: char)
    requires c in s && !IsSpace(c)
    ensures c in Strip(s)
  {
    var r := Strip(s);
    StripSpec(s);
    var k :| StripsTo(s, r, k);
    var i :| 0 <= i < |s| && s[i] == c;
    InsideStrip(s, r, k, i);
    assert r[i - k] == s[k..k + |r|][i - k] == c;
  }

  /** A code point that is not whitespace lies between the stripped ends. */
  lemma InsideStrip(s: string, r: string, k: int, i: int)
    requires StripsTo(s, r, k) && 0 <= i < |s| && !IsSpace(s[i])
    ensures k <= i < k + |r|
  {
    forall j | 0 <= j < k ensures IsSpace(s[j]) {
      assert s[..k][j] == s[j];
    }
    forall j | k + |r| <= j < |s| ensures IsSpace(s[j]) {
      assert s[k + |r|..][j - (k + |r|)] == s[j];
    }
  }

  /** Stripping whitespace never creates an occurrence. */
  lemma StripContains(s: string, p: string)
    requires Contains(Strip(s), p)
    ensures Contains(s, p)
  {
    var r := Strip(s);
    StripSpec(s);
    var k :| StripsTo(s, r, k);
    ContainsWithin(s, k, |r|, p);
  }

  // ---------------------------------------------------------------- replace(p, "")

  /** Python's `s.replace(p, "")`: remove the occurrences found by a left-to-right scan that does not overlap them. */
  function RemoveAll(s: string, p: string): (r: string)
    requires |p| > 0
    ensures |r| <= |s|
    ensures forall c :: c in r ==> c in s
    decreases |s|
  {
    if |s| < |p| then s
    else if s[..|p|] == p then
      var r := RemoveAll(s[|p|..], p);
      assert forall c :: c in s[|p|..] ==> c in s;
      r
    else
      var r := [s[0]] + RemoveAll(s[1..], p);
      assert forall c :: c in s[1..] ==> c in s;
      r
  }

  /** A code point that is not part of the pattern survives its removal. */
  lemma {:induction false} RemoveAllKeeps(s: string, p: string, c: char)
    requires |p| > 0 && c in s && c !in p
    ensures c in RemoveAll(s, p)
    decreases |s|
  {
    if |s| < |p| {
    } else if s[..|p|] == p {
      forall j | 0 <= j < |p| ensures s[j] != c {
        assert s[j] == p[j];
      }
      var i :| |p| <= i < |s| && s[i] == c;
      assert s[|p|..][i - |p|] == c;
      RemoveAllKeeps(s[|p|..], p, c);
    } else if s[0] != c {
      assert s == [s[0]] + s[1..];
      RemoveAllKeeps(s[1..], p, c);
    }
  }

  /** Text in which the pattern's first code point never appears is left unchanged ahead of the rest. */
  lemma {:induction false} RemoveAllSkipsPrefix(a: string, b: string, p: string)
    requires |p| > 0 && p[0] !in a
    ensures RemoveAll(a + b, p) == a + RemoveAll(b, p)
    decreases |a|
  {
    if a == [] {
      assert a + b == b;
    } else {
      var s := a + b;
      if |s| < |p| {
        RemoveAllShort(b, p);
      } else {
        assert s[..|p|][0] == a[0];
        assert s[1..] == a[1..] + b;
        RemoveAllSkipsPrefix(a[1..], b, p);
      }
    }
  }

  lemma RemoveAllShort(s: string, p: string)
    requires |p| > 0 && |s| < |p|
    ensures RemoveAll(s, p) == s
  {
  }

  /** With a one-code-point pattern, `replace(c, "")` deletes exactly the copies of `c`. */
  lemma {:induction false} RemoveCharDeletes(s: string, c: char)
    ensures c !in RemoveAll(s, [c])
    ensures forall d :: d != c && d in s ==> d in RemoveAll(s, [c])
    decreases |s|
  {
    if |s| >= 1 {
      assert s[1..] == s[|[c]|..];
      RemoveCharDeletes(s[1..], c);
      forall d | d != c && d in s ensures d in RemoveAll(s, [c]) {
        RemoveAllKeeps(s, [c], d);
      }
    } else {
      RemoveAllShort(s, [c]);
    }
  }

  /** A pattern that does not hold the removed code point still occurs once that code point is removed. */
  lemma {:induction false} RemoveCharKeepsOccurrence(s: string, c: char, p: string)
    requires |p| > 0 && c !in p && Contains(s, p)
    ensures Contains(RemoveAll(s, [c]), p)
    decreases |s|
  {
    var i :| 0 <= i <= |s| - |p| && OccursAt(s, p, i);
    var r := RemoveAll(s, [c]);
    if i == 0 {
      // The occurrence opens the text: none of its code points is removed.
      assert s == p + s[|p|..];
      assert c !in p;
      forall k | 0 <= k <= |p| ensures RemoveAll(s, [c]) == p[..k] + RemoveAll(p[k..] + s[|p|..], [c]) {
        PrefixSurvives(p, s[|p|..], c, k);
      }
      assert RemoveAll(s, [c]) == p + RemoveAll(s[|p|..], [c]) by {
        assert p[..|p|] == p && p[|p|..] == [];
        assert p[|p|..] + s[|p|..] == s[|p|..];
      }
      assert OccursAt(r, p, 0) by {
        assert r[..|p|] == p;
      }
    } else {
      assert s[1..][i - 1..i - 1 + |p|] == s[i..i + |p|];
      assert OccursAt(s[1..], p, i - 1);
      RemoveCharKeepsOccurrence(s[1..], c, p);
      var r' := RemoveAll(s[1..], [c]);
      var j :| 0 <= j <= |r'| - |p| && OccursAt(r', p, j);
      assert s[1..] == s[|[c]|..];
      if s[0] == c {
        assert r == r';
      } else {
        assert r == [s[0]] + r';
        assert r[j + 1..j + 1 + |p|] == r'[j..j + |p|];
        assert OccursAt(r, p, j + 1);
      }
    }
  }

  lemma {:induction false} PrefixSurvives(p: string, rest: string, c: char, k: nat)
    requires c !in p && k <= |p|
    ensures RemoveAll(p + rest, [c]) == p[..k] + RemoveAll(p[k..] + rest, [c])
    decreases k
  {
    if k == 0 {
      assert p[..0] == [] && p[0..] == p;
    } else {
      PrefixSurvives(p, rest, c, k - 1);
      var t := p[k - 1..] + rest;
      assert t[0] == p[k - 1] && t[0] != c;
      assert t[1..] == p[k..] + rest;
      assert t[..1] != [c];
      assert RemoveAll(t, [c]) == [t[0]] + RemoveAll(t[1..], [c]);
      assert p[..k] == p[..k - 1] + [p[k - 1]];
    }
  }

  // ---------------------------------------------------------------- split(sep)

  /** Python's `s.split(sep)` for a non-empty separator: the pieces between the occurrences a left-to-right scan finds. */
  function SplitOn(s: string, sep: string): (pieces: seq<string>)
    requires |sep| > 0
    ensures |pieces| >= 1
  {
    SplitFrom([], s, sep)
  }

  /** The scan of `s`, with `cur` the part of the current piece already passed over. */
  function SplitFrom(cur: string, s: string, sep: string): (pieces: seq<string>)
    requires |sep| > 0
    ensures |pieces| >= 1
    decreases |s|
  {
    if |s| < |sep| then [cur + s]
    else if s[..|sep|] == sep then [cur] + SplitFrom([], s[|sep|..], sep)
    else SplitFrom(cur + [s[0]], s[1..], sep)
  }

  /** One step of the scan past a code point where no separator starts. */
  lemma SplitStep(cur: string, c: char, s: string, sep: string)
    requires |sep| > 0 && |[c] + s| >= |sep| && ([c] + s)[..|sep|] != sep
    ensures SplitFrom(cur, [c] + s, sep) == SplitFrom(cur + [c], s, sep)
  {
    assert ([c] + s)[1..] == s;
  }

  /** One step of the scan over a separator, which ends the current piece. */
  lemma SplitCut(cur: string, s: string, sep: string)
    requires |sep| > 0
    ensures SplitFrom(cur, sep + s, sep) == [cur] + SplitFrom([], s, sep)
    ensures var p := SplitFrom(cur, sep + s, sep); var q := SplitFrom([], s, sep); p[|p| - 1] == q[|q| - 1]
  {
    assert (sep + s)[..|sep|] == sep && (sep + s)[|sep|..] == s;
  }

  /** When no separator starts inside `a`, the scan of `a + sep + b` cuts right after `a`. */
  lemma {:induction false} SplitFirstCut(cur: string, a: string, sep: string, b: string)
    requires |sep| > 0
    requires forall j :: 0 <= j < |a| ==> !OccursAt(a + sep + b, sep, j)
    ensures SplitFrom(cur, a + sep + b, sep) == [cur + a] + SplitFrom([], b, sep)
    ensures var p := SplitFrom(cur, a + sep + b, sep); var q := SplitFrom([], b, sep); p[|p| - 1] == q[|q| - 1]
    decreases |a|
  {
    if a == [] {
      assert a + sep + b == sep + b && cur + a == cur;
      SplitCut(cur, b, sep);
    } else {
      var s := a + sep + b;
      var t := a[1..] + sep + b;
      assert !OccursAt(s, sep, 0);
      assert s == [a[0]] + t;
      SplitStep(cur, a[0], t, sep);
      forall j | 0 <= j < |a| - 1 ensures !OccursAt(t, sep, j) {
        assert !OccursAt(s, sep, j + 1);
        assert s[j + 1..j + 1 + |sep|] == t[j..j + |sep|];
      }
      SplitFirstCut(cur + [a[0]], a[1..], sep, b);
      assert cur + [a[0]] + a[1..] == cur + a;
    }
  }

  /** Python's `sep.join(pieces)`, the inverse of `split`. */
  function Join(pieces: seq<string>, sep: string): string
    requires |pieces| >= 1
  {
    if |pieces| == 1 then pieces[0] else pieces[0] + sep + Join(pieces[1..], sep)
  }

  /** Joining the pieces of a split gives back the text. */
  lemma {:induction false} SplitJoin(cur: string, s: string, sep: string)
    requires |sep| > 0
    ensures Join(SplitFrom(cur, s, sep), sep) == cur + s
    decreases |s|
  {
    if |s| < |sep| {
    } else if s[..|sep|] == sep {
      SplitJoin([], s[|sep|..], sep);
      assert ([cur] + SplitFrom([], s[|sep|..], sep))[1..] == SplitFrom([], s[|sep|..], sep);
      assert [] + s[|sep|..] == s[|sep|..];
      assert cur + sep + s[|sep|..] == cur + s;
    } else {
      SplitJoin(cur + [s[0]], s[1..], sep);
      assert cur + [s[0]] + s[1..] == cur + s;
    }
  }

  /** No piece of a split holds the separator. */
  lemma {:induction false} SplitPiecesFree(cur: string, s: string, sep: string)
    requires |sep| > 0
    requires forall j :: 0 <= j < |cur| ==> !OccursAt(cur + s, sep, j)
    ensures forall k :: 0 <= k < |SplitFrom(cur, s, sep)| ==> !Contains(SplitFrom(cur, s, sep)[k], sep)
    decreases |s|
  {
    var pieces := SplitFrom(cur, s, sep);
    if |s| < |sep| {
      assert pieces == [cur + s];
      forall j | 0 <= j <= |cur + s| - |sep| ensures !OccursAt(cur + s, sep, j) {
      }
    } else if s[..|sep|] == sep {
      SplitPiecesFree([], s[|sep|..], sep);
      assert pieces == [cur] + SplitFrom([], s[|sep|..], sep);
      forall j | 0 <= j <= |cur| - |sep| ensures !OccursAt(cur, sep, j) {
        assert j < |cur| && !OccursAt(cur + s, sep, j);
        assert (cur + s)[j..j + |sep|] == cur[j..j + |sep|];
      }
      forall k | 0 <= k < |pieces| ensures !Contains(pieces[k], sep) {
        if k > 0 {
          assert pieces[k] == SplitFrom([], s[|sep|..], sep)[k - 1];
        }
      }
    } else {
      var cur' := cur + [s[0]];
      assert cur' + s[1..] == cur + s;
      forall j | 0 <= j < |cur'| ensures !OccursAt(cur' + s[1..], sep, j) {
        if j == |cur| {
          assert (cur + s)[j..j + |sep|] == s[..|sep|];
        }
      }
      SplitPiecesFree(cur', s[1..], sep);
    }
  }

  /** The separator is found exactly when it occurs: a split gives more than one piece iff `sep in s`. */
  lemma SplitFindsSeparator(s: string, sep: string)
    requires |sep| > 0
    ensures |SplitOn(s, sep)| >= 2 <==> Contains(s, sep)
  {
    var pieces := SplitOn(s, sep);
    SplitJoin([], s, sep);
    SplitPiecesFree([], s, sep);
    assert [] + s == s;
    if |pieces| == 1 {
      assert Join(pieces, sep) == pieces[0];
    } else {
      JoinLast(pieces, sep);
      var head := Join(pieces[..|pieces| - 1], sep);
      assert s == head + sep + pieces[|pieces| - 1];
      assert s[|head|..|head| + |sep|] == sep;
      assert OccursAt(s, sep, |head|);
    }
  }

  /** The last piece follows the last separator the split found. */
  lemma {:induction false} JoinLast(pieces: seq<string>, sep: string)
    requires |pieces| >= 2
    ensures Join(pieces, sep) == Join(pieces[..|pieces| - 1], sep) + sep + pieces[|pieces| - 1]
    decreases |pieces|
  {
    if |pieces| > 2 {
      JoinLast(pieces[1..], sep);
      assert pieces[1..][..|pieces| - 2] == pieces[..|pieces| - 1][1..];
    } else {
      assert pieces[..1] == [pieces[0]];
    }
  }

  /** The last piece of a split that found `sep` is a suffix right after an occurrence of `sep`, and holds none. */
  lemma LastPieceFollowsSeparator(s: string, sep: string)
    requires |sep| > 0 && Contains(s, sep)
    ensures var pieces := SplitOn(s, sep); var last := pieces[|pieces| - 1];
      |last| + |sep| <= |s| && s[|s| - |last|..] == last
      && OccursAt(s, sep, |s| - |last| - |sep|) && !Contains(last, sep)
  {
    var pieces := SplitOn(s, sep);
    SplitFindsSeparator(s, sep);
    SplitJoin([], s, sep);
    SplitPiecesFree([], s, sep);
    JoinLast(pieces, sep);
    assert [] + s == s;
    var head := Join(pieces[..|pieces| - 1], sep);
    var last := pieces[|pieces| - 1];
    assert s == head + sep + last;
    assert s[|s| - |last|..] == last;
    assert s[|head|..|head| + |sep|] == sep;
  }

  /** A scan that meets no separator yields the whole text as its one piece. */
  lemma {:induction false} SplitNoSeparator(cur: string, s: string, sep: string)
    requires |sep| > 0 && !Contains(s, sep)
    ensures SplitFrom(cur, s, sep) == [cur + s]
    decreases |s|
  {
    if |s| >= |sep| {
      assert !OccursAt(s, sep, 0);
      assert s[..|sep|] != sep;
      forall i | 0 <= i <= |s[1..]| - |sep| && OccursAt(s[1..], sep, i) ensures false {
        assert s[1..][i..i + |sep|] == s[i + 1..i + 1 + |sep|];
        assert OccursAt(s, sep, i + 1);
      }
      SplitNoSeparator(cur + [s[0]], s[1..], sep);
      assert cur + [s[0]] + s[1..] == cur + s;
    }
  }

  /**
   * When `sep` occurs at the end of `a` followed by `b`, `b` holds no separator, and no occurrence overlaps the
   * start of that one, the split's last piece is `b`.
   */
  lemma {:induction false} SplitLastAfter(cur: string, a: string, sep: string, b: string)
    requires |sep| > 0 && !Contains(b, sep)
    requires forall j :: |a| - |sep| < j < |a| ==> !OccursAt(a + sep + b, sep, j)
    ensures var pieces := SplitFrom(cur, a + sep + b, sep); pieces[|pieces| - 1] == b
    decreases |a|
  {
    var s := a + sep + b;
    if a == [] {
      assert s[..|sep|] == sep;
      assert s[|sep|..] == b;
      SplitNoSeparator([], b, sep);
    } else if s[..|sep|] == sep {
      assert OccursAt(s, sep, 0);
      assert |a| >= |sep|;
      assert a[..|sep|] == sep;
      var a' := a[|sep|..];
      assert s[|sep|..] == a' + sep + b;
      NoOverlapAfterDrop(a, sep, b, |sep|);
      SplitLastAfter([], a', sep, b);
    } else {
      var a' := a[1..];
      assert s[1..] == a' + sep + b;
      NoOverlapAfterDrop(a, sep, b, 1);
      SplitLastAfter(cur + [s[0]], a', sep, b);
    }
  }

  /** Dropping the first `n` code points of `a` keeps `sep` from overlapping the end of what is left. */
  lemma NoOverlapAfterDrop(a: string, sep: string, b: string, n: nat)
    requires n <= |a|
    requires forall j :: |a| - |sep| < j < |a| ==> !OccursAt(a + sep + b, sep, j)
    ensures forall j :: |a| - n - |sep| < j < |a| - n ==> !OccursAt(a[n..] + sep + b, sep, j)
  {
    var s := a + sep + b;
    var t := a[n..] + sep + b;
    assert s[n..] == t;
    forall j | |a| - n - |sep| < j < |a| - n ensures !OccursAt(t, sep, j) {
      assert !OccursAt(s, sep, j + n);
      if 0 <= j && j + |sep| <= |t| {
        assert s[j + n..j + n + |sep|] == t[j..j + |sep|];
      }
    }
  }

  // ---------------------------------------------------------------- split()

  /** The longest prefix of `t` that holds no whitespace. */
  function TakeWord(t: string): (w: string)
    ensures |w| <= |t| && w == t[..|w|] && NoSpace(w)
    ensures |w| == |t| || IsSpace(t[|w|])
    decreases |t|
  {
    if t == [] || IsSpace(t[0]) then [] else [t[0]] + TakeWord(t[1..])
  }

  /** `w` is the first whitespace-separated word of `s`, and it starts at index `k`. */
  predicate FirstWordAt(s: string, w: string, k: int) {
    0 <= k && k + |w| <= |s| && AllSpace(s[..k]) && s[k..k + |w|] == w
    && (k + |w| == |s| || IsSpace(s[k + |w|]))
  }

  /** `s.split()[0]`, or None when `s.split()` is empty (Python raises IndexError there). */
  function FirstWord(s: string): (w: Option<string>)
    ensures w.None? <==> AllSpace(s)
    ensures w.Some? ==> w.value != [] && NoSpace(w.value) && exists k :: FirstWordAt(s, w.value, k)
  {
    var t := TrimStart(s);
    if t == [] then
      assert s[..|s|] == s;
      None
    else
      var w := TakeWord(t);
      assert !AllSpace(s) by {
        assert s[|s| - |t|] == t[0];
      }
      assert FirstWordAt(s, w, |s| - |t|) by {
        assert s[|s| - |t|..|s| - |t| + |w|] == t[..|w|];
        if |w| < |t| {
          assert s[|s| - |t| + |w|] == t[|w|];
        }
      }
      Some(w)
  }
}
