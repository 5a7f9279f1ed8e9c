/** The Python `str` and `list` operations the scrapers chain together:
    `strip`, `split`, `join`, `replace`, `lower`, `in`, slicing and `list(set(...))`. */
module PyStr {
  import opened Py

  // ---------------------------------------------------------------------------
  // Whitespace and strip()
  // ---------------------------------------------------------------------------

  /** Python's `str.isspace()` for one character (the Unicode whitespace set). */
  predicate IsSpace(c: char) {
    || ('\t' <= c <= '\r')
    || ('\U{1C}' <= c <= ' ')
    || c == '\U{85}' || c == '\U{A0}' || c == '\U{1680}'
    || ('\U{2000}' <= c <= '\U{200A}')
    || c == '\U{2028}' || c == '\U{2029}' || c == '\U{202F}' || c == '\U{205F}' || c == '\U{3000}'
  }

  predicate AllSpace(s: string) {
    forall i :: 0 <= i < |s| ==> IsSpace(s[i])
  }

  /** Neither end of `s` is whitespace. */
  predicate IsStripped(s: string) {
    s == [] || (!IsSpace(s[0]) && !IsSpace(s[|s| - 1]))
  }

  function StripLeft(s: string): (r: string)
    ensures |r| <= |s| && r == s[|s| - |r|..]
    ensures r == [] || !IsSpace(r[0])
    ensures forall i :: 0 <= i < |s| - |r| ==> IsSpace(s[i])
  {
    if s != [] && IsSpace(s[0]) then StripLeft(s[1..]) else s
  }

  function StripRight(s: string): (r: string)
    ensures |r| <= |s| && r == s[..|r|]
    ensures r == [] || !IsSpace(r[|r| - 1])
    ensures forall i :: |r| <= i < |s| ==> IsSpace(s[i])
  {
    if s != [] && IsSpace(s[|s| - 1]) then StripRight(s[..|s| - 1]) else s
  }

  /** `s.strip()`: `s` without its leading and trailing whitespace. */
  function Strip(s: string): (r: string)
    ensures IsStripped(r)
    ensures |r| <= |s|
    ensures r == [] <==> AllSpace(s)
    ensures forall c :: c in r ==> c in s
  {
    StripEndsNotSpace(s);
    StripEmptyIffSpace(s);
    StripKeepsChars(s);
    StripRight(StripLeft(s))
  }

  lemma StripEndsNotSpace(s: string)
    ensures IsStripped(StripRight(StripLeft(s)))
  {
    var l := StripLeft(s);
    var r := StripRight(l);
    assert r != [] ==> r[0] == l[0];
  }

  lemma StripEmptyIffSpace(s: string)
    ensures StripRight(StripLeft(s)) == [] <==> AllSpace(s)
  {
    if StripRight(StripLeft(s)) == [] {
      StripEmptyAllSpace(s);
    } else {
      StripNonEmptyNotAllSpace(s);
    }
  }

  lemma StripEmptyAllSpace(s: string)
    requires StripRight(StripLeft(s)) == []
    ensures AllSpace(s)
  {
    var l := StripLeft(s);
    StripRightEmpty(l);
    assert l == [];
  }

  lemma StripNonEmptyNotAllSpace(s: string)
    requires StripRight(StripLeft(s)) != []
    ensures !AllSpace(s)
  {
    var l := StripLeft(s);
    StripRightNonEmpty(l);
    NotAllSpace(s, |s| - |l|);
  }

  lemma StripRightEmpty(l: string)
    requires StripRight(l) == []
    ensures AllSpace(l)
  {
    assert l[0..] == l;
  }

  lemma StripRightNonEmpty(l: string)
    requires StripRight(l) != []
    ensures l != [] && StripRight(l)[0] == l[0]
  {
    var r := StripRight(l);
    assert r[0] == l[0];
  }

  lemma NotAllSpace(s: string, k: nat)
    requires k < |s| && !IsSpace(s[k])
    ensures !AllSpace(s)
  {
  }

  lemma StripKeepsChars(s: string)
    ensures forall c :: c in StripRight(StripLeft(s)) ==> c in s
  {
    var l := StripLeft(s);
    var r := StripRight(l);
    SliceChars(l, 0, |r|);
    SliceChars(s, |s| - |l|, |s|);
  }

  lemma SliceChars(s: string, lo: nat, hi: nat)
    requires lo <= hi <= |s|
    ensures forall c :: c in s[lo..hi] ==> c in s
  {
    forall c | c in s[lo..hi] ensures c in s {
      var k :| 0 <= k < hi - lo && s[lo..hi][k] == c;
      assert s[lo + k] == c;
    }
  }

  lemma {:induction false} StripLeftOf(a: string, r: string)
    requires AllSpace(a) && (r == [] || !IsSpace(r[0]))
    ensures StripLeft(a + r) == r
    decreases |a|
  {
    if a == [] {
      assert a + r == r;
    } else {
      assert (a + r)[0] == a[0];
      assert (a + r)[1..] == a[1..] + r;
      StripLeftOf(a[1..], r);
    }
  }

  lemma {:induction false} StripRightOf(r: string, b: string)
    requires AllSpace(b) && (r == [] || !IsSpace(r[|r| - 1]))
    ensures StripRight(r + b) == r
    decreases |b|
  {
    if b == [] {
      assert r + b == r;
    } else {
      assert (r + b)[|r + b| - 1] == b[|b| - 1];
      assert (r + b)[..|r + b| - 1] == r + b[..|b| - 1];
      StripRightOf(r, b[..|b| - 1]);
    }
  }

  lemma AllSpaceConcat(a: string, b: string)
    requires AllSpace(a) && AllSpace(b)
    ensures AllSpace(a + b)
  {
    forall i | 0 <= i < |a + b| ensures IsSpace((a + b)[i]) {
      if i < |a| { assert (a + b)[i] == a[i]; } else { assert (a + b)[i] == b[i - |a|]; }
    }
  }

  /** Stripping keeps exactly the text between the whitespace margins: the
      defining property of `str.strip()`. */
  lemma StripOf(a: string, r: string, b: string)
    requires AllSpace(a) && AllSpace(b) && IsStripped(r)
    ensures Strip(a + r + b) == r
  {
    if r == [] {
      assert a + r + b == a + b;
      AllSpaceConcat(a, b);
      assert AllSpace(a + r + b);
    } else {
      assert a + r + b == a + (r + b);
      assert (r + b)[0] == r[0];
      StripLeftOf(a, r + b);
      StripRightOf(r, b);
    }
  }

  /** Stripping a text that is already stripped changes nothing. */
  lemma StripStripped(r: string)
    requires IsStripped(r)
    ensures Strip(r) == r
  {
    assert [] + r + [] == r;
    StripOf([], r, []);
  }

  // ---------------------------------------------------------------------------
  // Substring search: `t in s`
  // ---------------------------------------------------------------------------

  /** `t` occurs in `s` starting at index `i`. */
  predicate OccursAt(s: string, t: string, i: int) {
    0 <= i && i + |t| <= |s| && s[i..i + |t|] == t
  }

  /** Python's `t in s`. */
  predicate Contains(s: string, t: string) {
    exists i: nat | i <= |s| :: OccursAt(s, t, i)
  }

  lemma OccursShift(s: string, t: string)
    requires s != []
    ensures forall k: nat :: OccursAt(s[1..], t, k) <==> OccursAt(s, t, k + 1)
  {
    forall k: nat ensures OccursAt(s[1..], t, k) <==> OccursAt(s, t, k + 1) {
      if k + 1 + |t| <= |s| {
        assert s[1..][k..k + |t|] == s[k + 1..k + 1 + |t|];
      }
    }
  }

  /** `s.find(t)`: the first index at which `t` occurs in `s`, or -1. */
  function Find(s: string, t: string): (r: int)
    ensures -1 <= r <= |s|
    ensures r == -1 <==> !Contains(s, t)
    ensures r >= 0 ==> OccursAt(s, t, r) && forall k: nat :: k < r ==> !OccursAt(s, t, k)
    decreases |s|
  {
    if |s| < |t| then
      NoRoom(s, t);
      -1
    else if s[..|t|] == t then
      assert OccursAt(s, t, 0);
      0
    else
      var k := Find(s[1..], t);
      if k < 0 then
        ShiftNone(s, t);
        -1
      else
        ShiftFirst(s, t, k);
        k + 1
  }

  lemma NoRoom(s: string, t: string)
    requires |s| < |t|
    ensures !Contains(s, t)
  {
  }

  /** No occurrence at the start and none in the tail: none at all. */
  lemma ShiftNone(s: string, t: string)
    requires s != [] && |t| <= |s| && s[..|t|] != t
    requires !Contains(s[1..], t)
    ensures !Contains(s, t)
  {
    OccursShift(s, t);
    forall i: nat ensures !OccursAt(s, t, i) {
      if i > 0 {
        assert !OccursAt(s[1..], t, i - 1);
      }
    }
  }

  /** No occurrence at the start: the first occurrence is the tail's, one further on. */
  lemma ShiftFirst(s: string, t: string, k: nat)
    requires s != [] && |t| <= |s| && s[..|t|] != t
    requires OccursAt(s[1..], t, k) && forall j: nat :: j < k ==> !OccursAt(s[1..], t, j)
    ensures OccursAt(s, t, k + 1) && Contains(s, t)
    ensures forall j: nat :: j < k + 1 ==> !OccursAt(s, t, j)
  {
    OccursShift(s, t);
    assert OccursAt(s, t, k + 1);
    forall j: nat | j < k + 1 ensures !OccursAt(s, t, j) {
      if j > 0 {
        assert !OccursAt(s[1..], t, j - 1);
      }
    }
  }

  /** `Find` is determined by its contract: the least occurrence. */
  lemma FindIs(s: string, t: string, i: nat)
    requires OccursAt(s, t, i) && forall k: nat :: k < i ==> !OccursAt(s, t, k)
    ensures Find(s, t) == i
  {
    var r := Find(s, t);
    assert Contains(s, t);
  }

  lemma OccursInPrefix(s: string, n: nat, t: string, k: nat)
    requires n <= |s| && k + |t| <= n
    ensures OccursAt(s[..n], t, k) <==> OccursAt(s, t, k)
  {
    assert s[..n][k..k + |t|] == s[k..k + |t|];
  }

  /** Appending text after the first occurrence does not move it. */
  lemma FindExtend(a: string, b: string, t: string)
    requires Find(a, t) >= 0
    ensures Find(a + b, t) == Find(a, t)
  {
    var i := Find(a, t);
    assert (a + b)[..|a|] == a;
    OccursInPrefix(a + b, |a|, t, i);
    forall k: nat | k < i ensures !OccursAt(a + b, t, k) {
      OccursInPrefix(a + b, |a|, t, k);
    }
    FindIs(a + b, t, i);
  }

  /** Cutting the text right after the first occurrence keeps it first. */
  lemma FindInPrefix(s: string, t: string)
    requires Find(s, t) >= 0
    ensures Find(s[..Find(s, t)] + t, t) == Find(s, t)
  {
    var i := Find(s, t);
    var p := s[..i] + t;
    assert p == s[..i + |t|];
    OccursInPrefix(s, i + |t|, t, i);
    forall k: nat | k < i ensures !OccursAt(p, t, k) {
      OccursInPrefix(s, i + |t|, t, k);
    }
    FindIs(p, t, i);
  }

  lemma ContainsChar(s: string, c: char)
    ensures Contains(s, [c]) <==> c in s
  {
    if c in s {
      var k :| 0 <= k < |s| && s[k] == c;
      assert OccursAt(s, [c], k);
    }
    if Contains(s, [c]) {
      var k: nat :| k <= |s| && OccursAt(s, [c], k);
      assert k + 1 <= |s| && s[k..k + 1] == [c];
      assert s[k] == c;
    }
  }

  // ---------------------------------------------------------------------------
  // split() and join()
  // ---------------------------------------------------------------------------

  /** `sep.join(parts)`. */
  function Join(sep: string, parts: seq<string>): string
  {
    if |parts| == 0 then []
    else if |parts| == 1 then parts[0]
    else parts[0] + sep + Join(sep, parts[1..])
  }

  /** `p` is a piece `str.split` can cut off the front: when `sep` follows `p`,
      the first occurrence of `sep` is that one. */
  predicate IsLeftmostPiece(p: string, sep: string) {
    Find(p + sep, sep) == |p|
  }

  /** The shape of every result of `s.split(sep)`: at least one piece, every piece
      but the last ends at the first separator after it, the last holds none. */
  predicate IsSplitting(parts: seq<string>, sep: string) {
    && |parts| >= 1
    && !Contains(parts[|parts| - 1], sep)
    && forall k :: 0 <= k < |parts| - 1 ==> IsLeftmostPiece(parts[k], sep)
  }

  /** `s.split(sep)` for a non-empty `sep`: cut at each leftmost
      non-overlapping occurrence of `sep`. */
  function Split(s: string, sep: string): (r: seq<string>)
    requires sep != []
    ensures |r| >= 1
    ensures Join(sep, r) == s
    decreases |s|
  {
    var i := Find(s, sep);
    if i < 0 then [s]
    else
      var rest := Split(s[i + |sep|..], sep);
      JoinCons(sep, s[..i], rest);
      FirstOccurrenceCut(s, sep, i);
      [s[..i]] + rest
  }

  lemma JoinCons(sep: string, p: string, rest: seq<string>)
    requires |rest| >= 1
    ensures Join(sep, [p] + rest) == p + sep + Join(sep, rest)
  {
    assert ([p] + rest)[1..] == rest;
  }

  /** Every result of `Split` has the shape `IsSplitting` describes. */
  lemma {:induction false} SplitIsSplitting(s: string, sep: string)
    requires sep != []
    ensures IsSplitting(Split(s, sep), sep)
    decreases |s|
  {
    var i := Find(s, sep);
    if i >= 0 {
      var rest := Split(s[i + |sep|..], sep);
      SplitIsSplitting(s[i + |sep|..], sep);
      FindInPrefix(s, sep);
      SplittingCons(s[..i], rest, sep);
    }
  }

  lemma SplittingCons(p: string, rest: seq<string>, sep: string)
    requires IsLeftmostPiece(p, sep) && IsSplitting(rest, sep)
    ensures IsSplitting([p] + rest, sep)
  {
    var r := [p] + rest;
    assert r[0] == p && r[1..] == rest;
    forall k | 0 < k < |r| - 1 ensures IsLeftmostPiece(r[k], sep) {
      assert r[k] == rest[k - 1];
    }
  }

  lemma FirstOccurrenceCut(s: string, sep: string, i: nat)
    requires OccursAt(s, sep, i)
    ensures s == s[..i] + sep + s[i + |sep|..]
  {
    assert s == s[..i] + s[i..i + |sep|] + s[i + |sep|..];
  }

  /** Splitting undoes joining, for every list of pieces `split` can produce:
      together with `Join(sep, Split(s, sep)) == s` this makes the two inverse. */
  lemma {:induction false} SplitJoin(parts: seq<string>, sep: string)
    requires sep != [] && IsSplitting(parts, sep)
    ensures Split(Join(sep, parts), sep) == parts
    decreases |parts|
  {
    if |parts| == 1 {
      assert Find(parts[0], sep) == -1;
    } else {
      var p := parts[0];
      var tail := parts[1..];
      var j := Join(sep, tail);
      SplittingTail(parts, sep);
      SplitJoin(tail, sep);
      JoinCons(sep, p, tail);
      assert parts == [p] + tail;
      FindExtend(p + sep, j, sep);
      SplitAfterPiece(p, sep, j);
    }
  }

  lemma SplittingTail(parts: seq<string>, sep: string)
    requires |parts| >= 2 && IsSplitting(parts, sep)
    ensures IsSplitting(parts[1..], sep)
  {
    var tail := parts[1..];
    assert tail[|tail| - 1] == parts[|parts| - 1];
    forall k | 0 <= k < |tail| - 1 ensures IsLeftmostPiece(tail[k], sep) {
      assert tail[k] == parts[k + 1];
    }
  }

  lemma SplitAfterPiece(p: string, sep: string, j: string)
    requires sep != [] && Find(p + sep + j, sep) == |p|
    ensures Split(p + sep + j, sep) == [p] + Split(j, sep)
  {
    var s := p + sep + j;
    assert s[..|p|] == p;
    assert s[|p| + |sep|..] == j;
  }

  lemma JoinSnoc(sep: string, parts: seq<string>)
    requires |parts| >= 2
    ensures Join(sep, parts) == Join(sep, parts[..|parts| - 1]) + sep + parts[|parts| - 1]
  {
    var init, c := parts[..|parts| - 1], parts[|parts| - 1];
    assert parts == init + [c];
    JoinAppendOne(sep, init, c);
  }

  lemma {:induction false} JoinAppendOne(sep: string, xs: seq<string>, c: string)
    requires xs != []
    ensures Join(sep, xs + [c]) == Join(sep, xs) + sep + c
    decreases |xs|
  {
    var a, rest := xs[0], xs[1..];
    assert (xs + [c])[0] == a && (xs + [c])[1..] == rest + [c];
    if rest == [] {
      assert Join(sep, rest + [c]) == c;
    } else {
      JoinAppendOne(sep, rest, c);
      Regroup(a, sep, Join(sep, rest), c);
    }
  }

  lemma Regroup(a: string, sep: string, b: string, c: string)
    ensures a + sep + (b + sep + c) == (a + sep + b) + sep + c
  {
  }

  lemma LeftmostPieceHasNoSep(p: string, sep: string)
    requires sep != [] && IsLeftmostPiece(p, sep)
    ensures !Contains(p, sep)
  {
    if Contains(p, sep) {
      var k: nat :| k <= |p| && OccursAt(p, sep, k);
      assert (p + sep)[..|p|] == p;
      OccursInPrefix(p + sep, |p|, sep, k);
      assert false;
    }
  }

  /** `s.split(sep)[-1]`: the text after the last separator, or all of `s`;
      `AfterLastFacts` states what it is. */
  function AfterLast(s: string, sep: string): string
    requires sep != []
  {
    var parts := Split(s, sep);
    parts[|parts| - 1]
  }

  /** The text after the last separator holds no separator and ends the text;
      it is the whole text when there is no separator, and otherwise a
      separator stands right before it. */
  lemma AfterLastFacts(s: string, sep: string)
    requires sep != []
    ensures var r := AfterLast(s, sep);
      && !Contains(r, sep)
      && |r| <= |s| && s[|s| - |r|..] == r
      && (!Contains(s, sep) ==> r == s)
      && (Contains(s, sep) ==> |r| + |sep| <= |s| && OccursAt(s, sep, |s| - |r| - |sep|))
  {
    AfterLastNoSeparator(s, sep);
    AfterLastShape(s, sep);
  }

  lemma AfterLastNoSeparator(s: string, sep: string)
    requires sep != []
    ensures !Contains(AfterLast(s, sep), sep)
  {
    SplitIsSplitting(s, sep);
  }

  lemma AfterLastShape(s: string, sep: string)
    requires sep != []
    ensures var r := AfterLast(s, sep);
      && |r| <= |s| && s[|s| - |r|..] == r
      && (!Contains(s, sep) ==> r == s)
      && (Contains(s, sep) ==> |r| + |sep| <= |s| && OccursAt(s, sep, |s| - |r| - |sep|))
  {
    SplitIsSplitting(s, sep);
    LastPieceFacts(s, sep, Split(s, sep));
  }

  lemma LastPieceFacts(s: string, sep: string, parts: seq<string>)
    requires sep != [] && IsSplitting(parts, sep) && Join(sep, parts) == s
    ensures var r := parts[|parts| - 1];
      && |r| <= |s| && s[|s| - |r|..] == r
      && (!Contains(s, sep) ==> r == s)
      && (Contains(s, sep) ==> |r| + |sep| <= |s| && OccursAt(s, sep, |s| - |r| - |sep|))
  {
    var r := parts[|parts| - 1];
    if |parts| == 1 {
      assert s == r;
    } else {
      var front := Join(sep, parts[..|parts| - 1]);
      JoinSnoc(sep, parts);
      assert s == front + sep + r;
      SeparatorBefore(front, sep, r);
    }
  }

  lemma SeparatorBefore(front: string, sep: string, r: string)
    ensures var s := front + sep + r;
      s[|s| - |r|..] == r && OccursAt(s, sep, |front|) && Contains(s, sep)
  {
    var s := front + sep + r;
    assert s[|front|..|front| + |sep|] == sep;
    assert OccursAt(s, sep, |front|);
  }

  /** `s.split(sep)[0]`: the text before the first separator, or all of `s`. */
  function BeforeFirst(s: string, sep: string): (r: string)
    requires sep != []
    ensures !Contains(r, sep)
    ensures |r| <= |s| && s[..|r|] == r
    ensures !Contains(s, sep) ==> r == s
    ensures Contains(s, sep) ==> OccursAt(s, sep, |r|) && Find(s, sep) == |r|
  {
    var parts := Split(s, sep);
    SplitIsSplitting(s, sep);
    var r := parts[0];
    if |parts| == 1 then r
    else
      LeftmostPieceHasNoSep(r, sep);
      var rest := Join(sep, parts[1..]);
      assert s == r + sep + rest;
      assert s[..|r|] == r;
      assert s[|r|..|r| + |sep|] == sep;
      assert Contains(s, sep) by { assert OccursAt(s, sep, |r|); }
      FindExtend(r + sep, rest, sep);
      r
  }

  /** For a single-character separator, the last piece is the text after the
      last occurrence of that character. */
  lemma AfterLastChar(a: string, c: char, b: string)
    requires c !in b
    ensures AfterLast(a + [c] + b, [c]) == b
  {
    var s := a + [c] + b;
    var r := AfterLast(s, [c]);
    AfterLastFacts(s, [c]);
    ContainsChar(r, c);
    assert s[|a|] == c;
    ContainsChar(s, c);
    LastPieceIs(s, r, a, c, b);
  }

  lemma LastPieceIs(s: string, r: string, a: string, c: char, b: string)
    requires s == a + [c] + b && c !in b && c !in r
    requires |r| + 1 <= |s| && s[|s| - |r|..] == r && s[|s| - |r| - 1] == c
    ensures r == b
  {
    var k := |s| - |r| - 1;
    forall j | |a| < j < |s| ensures s[j] != c {
      assert s[j] == b[j - |a| - 1];
    }
    forall j | k < j < |s| ensures s[j] != c {
      assert s[j] == r[j - k - 1];
    }
    assert s[|a|] == c;
    assert k == |a|;
    assert s[|a| + 1..] == b;
  }

  /** For a single-character separator, the first piece is the text before the
      first occurrence of that character. */
  lemma BeforeFirstChar(a: string, c: char, b: string)
    requires c !in a
    ensures BeforeFirst(a + [c] + b, [c]) == a
  {
    var s := a + [c] + b;
    assert OccursAt(s, [c], |a|) by { assert s[|a|..|a| + 1] == [c]; }
    forall k: nat | k < |a| ensures !OccursAt(s, [c], k) {
      assert s[k] == a[k];
      assert s[k..k + 1] == [s[k]];
    }
    FindIs(s, [c], |a|);
    assert s[..|a|] == a;
  }

  /** A piece free of the separator character is one `split` cuts off whole. */
  lemma LeftmostCharPiece(p: string, c: char)
    requires c !in p
    ensures IsLeftmostPiece(p, [c])
  {
    var s := p + [c];
    assert OccursAt(s, [c], |p|) by { assert s[|p|..|p| + 1] == [c]; }
    forall k: nat | k < |p| ensures !OccursAt(s, [c], k) {
      assert s[k] == p[k];
      assert s[k..k + 1] == [s[k]];
    }
    FindIs(s, [c], |p|);
  }

  /** A separator whose first character does not recur in it cannot overlap itself. */
  predicate SelfDisjoint(sep: string) {
    sep != [] && sep[0] !in sep[1..]
  }

  /** A piece holding no separator is cut off whole when either the piece lacks
      the separator's first character or the separator cannot overlap itself. */
  lemma LeftmostPieceOf(p: string, sep: string)
    requires sep != [] && !Contains(p, sep)
    requires sep[0] !in p || SelfDisjoint(sep)
    ensures IsLeftmostPiece(p, sep)
  {
    var s := p + sep;
    assert OccursAt(s, sep, |p|) by { assert s[|p|..|p| + |sep|] == sep; }
    forall k: nat | k < |p| ensures !OccursAt(s, sep, k) {
      if OccursAt(s, sep, k) {
        if k + |sep| <= |p| {
          assert s[k..k + |sep|] == p[k..k + |sep|];
          assert OccursAt(p, sep, k);
          assert false;
        } else {
          assert false;
        }
      }
    }
    FindIs(s, sep, |p|);
  }

  /** The text before the first separator, for a separator of any length. */
  lemma BeforeFirstPiece(a: string, sep: string, b: string)
    requires sep != [] && !Contains(a, sep)
    requires sep[0] !in a || SelfDisjoint(sep)
    ensures BeforeFirst(a + sep + b, sep) == a
  {
    var s := a + sep + b;
    LeftmostPieceOf(a, sep);
    FindExtend(a + sep, b, sep);
    assert OccursAt(s, sep, |a|) by { assert s[|a|..|a| + |sep|] == sep; }
    var r := BeforeFirst(s, sep);
    assert s[..|a|] == a;
  }

  /** The text after the last separator, for a separator that cannot overlap itself. */
  lemma AfterLastPiece(a: string, sep: string, b: string)
    requires SelfDisjoint(sep) && !Contains(b, sep)
    ensures AfterLast(a + sep + b, sep) == b
  {
    var s := a + sep + b;
    var r := AfterLast(s, sep);
    AfterLastFacts(s, sep);
    assert OccursAt(s, sep, |a|) by { assert s[|a|..|a| + |sep|] == sep; }
    var q := |s| - |r| - |sep|;
    assert s[|a| + |sep|..] == b;
    if q < |a| {
      NoOverlap(s, sep, q, |a|);
      OccursWithin(s, sep, q + |sep|, |a|);
      assert false;
    } else if q > |a| {
      NoOverlap(s, sep, |a|, q);
      OccursWithin(s, sep, |a| + |sep|, q);
      assert false;
    }
    assert s[|s| - |b|..] == b;
  }

  /** Two occurrences of a separator that cannot overlap itself do not overlap. */
  lemma NoOverlap(s: string, sep: string, i: nat, j: nat)
    requires SelfDisjoint(sep) && OccursAt(s, sep, i) && OccursAt(s, sep, j) && i < j
    ensures i + |sep| <= j
  {
    if j < i + |sep| {
      assert false;
    }
  }

  /** An occurrence at `k` in `s` is one at `k - lo` in the suffix from `lo`. */
  lemma OccursWithin(s: string, t: string, lo: nat, k: nat)
    requires lo <= k && OccursAt(s, t, k)
    ensures Contains(s[lo..], t)
  {
    assert s[lo..][k - lo..k - lo + |t|] == s[k..k + |t|];
    assert OccursAt(s[lo..], t, k - lo);
  }

  /** Splitting on a character gives back the pieces it was joined from, when
      none of them holds that character. */
  lemma SplitOnChar(words: seq<string>, c: char)
    requires |words| >= 1
    requires forall k :: 0 <= k < |words| ==> c !in words[k]
    ensures Split(Join([c], words), [c]) == words
  {
    forall k | 0 <= k < |words| - 1 ensures IsLeftmostPiece(words[k], [c]) {
      LeftmostCharPiece(words[k], c);
    }
    ContainsChar(words[|words| - 1], c);
    SplitJoin(words, [c]);
  }

  // ---------------------------------------------------------------------------
  // replace() and lower()
  // ---------------------------------------------------------------------------

  /** `s.replace(target, with)`: Python defines it as `with.join(s.split(target))`. */
  function Replace(s: string, target: string, with: string): (r: string)
    requires target != []
    ensures !Contains(s, target) ==> r == s
  {
    Join(with, Split(s, target))
  }

  /** `s` with every `c` deleted: the reference meaning of `s.replace(c, '')`. */
  function RemoveChar(s: string, c: char): (r: string)
    ensures c !in r
    ensures forall x :: x in r ==> x in s
    ensures c !in s ==> r == s
  {
    if s == [] then []
    else (if s[0] == c then [] else [s[0]]) + RemoveChar(s[1..], c)
  }

  lemma {:induction false} RemoveCharConcat(a: string, b: string, c: char)
    ensures RemoveChar(a + b, c) == RemoveChar(a, c) + RemoveChar(b, c)
    decreases |a|
  {
    if a == [] {
      assert a + b == b;
    } else {
      assert (a + b)[0] == a[0];
      assert (a + b)[1..] == a[1..] + b;
      RemoveCharConcat(a[1..], b, c);
    }
  }

  /** Replacing one character by nothing deletes every occurrence of it. */
  lemma {:induction false} ReplaceCharByNothing(s: string, c: char)
    ensures Replace(s, [c], []) == RemoveChar(s, c)
    decreases |s|
  {
    if Find(s, [c]) < 0 {
      ContainsChar(s, c);
    } else {
      var i := Find(s, [c]);
      ReplaceCharStep(s, c);
      ReplaceCharByNothing(s[i + 1..], c);
      FindCharFacts(s, c);
      RemoveCharAt(s, c, i);
    }
  }

  lemma ReplaceCharStep(s: string, c: char)
    requires Find(s, [c]) >= 0
    ensures Replace(s, [c], []) == s[..Find(s, [c])] + Replace(s[Find(s, [c]) + 1..], [c], [])
  {
    var i := Find(s, [c]);
    var pieces := Split(s[i + 1..], [c]);
    assert Split(s, [c]) == [s[..i]] + pieces;
    JoinCons([], s[..i], pieces);
  }

  /** The first occurrence of a character: it is there, and not before. */
  lemma FindCharFacts(s: string, c: char)
    requires Find(s, [c]) >= 0
    ensures s[Find(s, [c])] == c && c !in s[..Find(s, [c])]
  {
    var i := Find(s, [c]);
    assert s[i..i + 1] == [c];
    forall k | 0 <= k < i ensures s[..i][k] != c {
      assert !OccursAt(s, [c], k);
      assert s[k..k + 1] == [s[k]];
    }
  }

  lemma RemoveCharAt(s: string, c: char, i: nat)
    requires i < |s| && s[i] == c && c !in s[..i]
    ensures RemoveChar(s, c) == s[..i] + RemoveChar(s[i + 1..], c)
  {
    assert s == s[..i] + [c] + s[i + 1..];
    RemoveCharConcat(s[..i] + [c], s[i + 1..], c);
    RemoveCharConcat(s[..i], [c], c);
  }

  /** `str.lower()` on one character (ASCII letters). */
  function LowerChar(c: char): char {
    if 'A' <= c <= 'Z' then (c as int + 32) as char else c
  }

  /** `s.lower()`. */
  function Lower(s: string): (r: string)
    ensures |r| == |s|
  {
    seq(|s|, i requires 0 <= i < |s| => LowerChar(s[i]))
  }

  // ---------------------------------------------------------------------------
  // Prefixes, slices and list(set(...))
  // ---------------------------------------------------------------------------

  /** `s.startswith(p)`. */
  predicate StartsWith(s: string, p: string) {
    |p| <= |s| && s[..|p|] == p
  }

  /** `xs[:n]`. */
  function Take<T>(xs: seq<T>, n: nat): (r: seq<T>)
    ensures |r| == if n < |xs| then n else |xs|
  {
    if n < |xs| then xs[..n] else xs
  }

  predicate NoDuplicates<T(==)>(xs: seq<T>) {
    forall i, j :: 0 <= i < j < |xs| ==> xs[i] != xs[j]
  }

  /** `list(set(xs))`: every element once. Python leaves the order to the hash
      set; this model keeps first occurrences in order. */
  function Dedup<T(==)>(xs: seq<T>): (r: seq<T>)
    ensures NoDuplicates(r)
    ensures forall i :: 0 <= i < |r| ==> r[i] in xs
    ensures forall i :: 0 <= i < |xs| ==> xs[i] in r
    ensures |r| <= |xs|
  {
    if xs == [] then []
    else
      var d := Dedup(xs[..|xs| - 1]);
      var x := xs[|xs| - 1];
      assert xs == xs[..|xs| - 1] + [x];
      if x in d then d else d + [x]
  }

  /** `[x for x in xs if p(x)]`: the elements satisfying `p`, in order. */
  function Filter<T>(xs: seq<T>, p: T -> bool): (r: seq<T>)
    ensures |r| <= |xs|
    ensures forall i :: 0 <= i < |r| ==> p(r[i]) && r[i] in xs
    ensures forall i :: 0 <= i < |xs| && p(xs[i]) ==> xs[i] in r
  {
    if xs == [] then []
    else
      var tail := Filter(xs[1..], p);
      assert forall i :: 0 <= i < |xs| - 1 ==> xs[1..][i] == xs[i + 1];
      if p(xs[0]) then [xs[0]] + tail else tail
  }

  /** Elements before the first one satisfying `p` are dropped; that one leads. */
  lemma {:induction false} FilterFirst<T>(xs: seq<T>, p: T -> bool, i: nat)
    requires i < |xs| && p(xs[i])
    requires forall j :: 0 <= j < i ==> !p(xs[j])
    ensures Filter(xs, p) == [xs[i]] + Filter(xs[i + 1..], p)
    decreases i
  {
    if i > 0 {
      assert xs[1..][i - 1] == xs[i];
      assert xs[1..][i..] == xs[i + 1..];
      FilterFirst(xs[1..], p, i - 1);
    }
  }

  /** Everything satisfies `p`: the comprehension keeps the whole sequence. */
  lemma {:induction false} FilterAll<T>(xs: seq<T>, p: T -> bool)
    requires forall j :: 0 <= j < |xs| ==> p(xs[j])
    ensures Filter(xs, p) == xs
  {
    if xs != [] {
      assert forall j :: 0 <= j < |xs| - 1 ==> xs[1..][j] == xs[j + 1];
      FilterAll(xs[1..], p);
    }
  }

  /** Nothing satisfies `p`: the comprehension is empty. */
  lemma {:induction false} FilterNone<T>(xs: seq<T>, p: T -> bool)
    requires forall j :: 0 <= j < |xs| ==> !p(xs[j])
    ensures Filter(xs, p) == []
  {
    if xs != [] {
      assert forall j :: 0 <= j < |xs| - 1 ==> xs[1..][j] == xs[j + 1];
      FilterNone(xs[1..], p);
    }
  }

  /** Two elements satisfying `p` make a comprehension of at least two. */
  lemma {:induction false} FilterTwo<T>(xs: seq<T>, p: T -> bool, i: nat, j: nat)
    requires i < j < |xs| && p(xs[i]) && p(xs[j])
    ensures |Filter(xs, p)| >= 2
    decreases i
  {
    if i > 0 {
      assert xs[1..][i - 1] == xs[i] && xs[1..][j - 1] == xs[j];
      FilterTwo(xs[1..], p, i - 1, j - 1);
    } else {
      assert xs[1..][j - 1] == xs[j];
      assert xs[j] in Filter(xs[1..], p);
    }
  }

  /** `[f(x) for x in xs]` where `f` may raise: the first element that raises
      decides the exception. */
  function MapRaising<A, B>(xs: seq<A>, f: A -> Result<B>): (r: Result<seq<B>>)
    ensures r.Ok? <==> forall i :: 0 <= i < |xs| ==> f(xs[i]).Ok?
    ensures r.Ok? ==> |r.value| == |xs| && forall i :: 0 <= i < |xs| ==> f(xs[i]) == Ok(r.value[i])
    ensures r.Err? ==> exists i :: 0 <= i < |xs| && f(xs[i]) == Err(r.error)
                                 && forall j :: 0 <= j < i ==> f(xs[j]).Ok?
  {
    if xs == [] then Ok([])
    else
      var rest := xs[1..];
      assert forall i :: 0 <= i < |rest| ==> rest[i] == xs[i + 1];
      var y :- f(xs[0]);
      var ys := MapRaising(rest, f);
      if ys.Err? then
        var i :| 0 <= i < |rest| && f(rest[i]) == Err(ys.error)
                 && forall j :: 0 <= j < i ==> f(rest[j]).Ok?;
        assert f(xs[i + 1]) == Err(ys.error);
        Err(ys.error)
      else
        Ok([y] + ys.value)
  }
}
