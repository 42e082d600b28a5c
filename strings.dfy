/**
  The parts of Python's `str` that the scraper relies on: `split(sep)`,
  `split()`, `lower()`, `strip()` and `int()` on a string.
 */
module Strings {
  import opened Wrappers

  // ---------------------------------------------------------------------
  // Characters
  // ---------------------------------------------------------------------

  /** Python's whitespace (`str.isspace`), which `split()` and `strip()` use. */
  predicate IsSpace(c: char) {
    || c == ' '
    || '\t' <= c <= '\r'
    || '\U{1c}' <= c <= '\U{1f}'
    || c == '\U{85}' || c == '\U{a0}' || c == '\U{1680}'
    || '\U{2000}' <= c <= '\U{200a}'
    || c == '\U{2028}' || c == '\U{2029}' || c == '\U{202f}'
    || c == '\U{205f}' || c == '\U{3000}'
  }

  predicate NoSpace(s: string) {
    forall k :: 0 <= k < |s| ==> !IsSpace(s[k])
  }

  predicate AllSpace(s: string) {
    forall k :: 0 <= k < |s| ==> IsSpace(s[k])
  }

  function LowerChar(c: char): char {
    if 'A' <= c <= 'Z' then (c as int + 32) as char else c
  }

  /** `s.lower()` on the ASCII letters. */
  function Lower(s: string): (r: string)
    ensures |r| == |s|
    ensures forall k :: 0 <= k < |s| ==> r[k] == LowerChar(s[k])
  {
    if s == [] then [] else [LowerChar(s[0])] + Lower(s[1..])
  }

  /** Lower-casing twice is lower-casing once, so a lower-cased text compares like the original. */
  lemma LowerIdempotent(s: string)
    ensures Lower(Lower(s)) == Lower(s)
  {
    var once := Lower(s);
    forall k | 0 <= k < |s|
      ensures Lower(once)[k] == once[k]
    {
      assert once[k] == LowerChar(s[k]);
    }
  }

  // ---------------------------------------------------------------------
  // s.split(sep) with a non-empty separator, and its inverse sep.join(parts)
  // ---------------------------------------------------------------------

  predicate OccursAt(s: string, sep: string, j: nat) {
    j + |sep| <= |s| && s[j..j + |sep|] == sep
  }

  /** The leftmost occurrence of `sep` in `s`, as `s.find(sep)` locates it. */
  function IndexOf(s: string, sep: string): (r: Option<nat>)
    requires |sep| > 0
    ensures r.Some? ==> OccursAt(s, sep, r.value)
    ensures r.Some? ==> forall j: nat :: j < r.value ==> !OccursAt(s, sep, j)
    ensures r.None? ==> forall j: nat :: !OccursAt(s, sep, j)
    decreases |s|
  {
    if |s| < |sep| then None
    else if s[..|sep|] == sep then Some(0)
    else
      var rest := IndexOf(s[1..], sep);
      forall j: nat | j >= 1 ensures OccursAt(s[1..], sep, j - 1) <==> OccursAt(s, sep, j) {
        if j + |sep| <= |s| {
          assert s[1..][j - 1..j - 1 + |sep|] == s[j..j + |sep|];
        }
      }
      assert !OccursAt(s, sep, 0);
      match rest
      case None => None
      case Some(k) => Some(k + 1)
  }

  /** `s.split(sep)`: the pieces between the non-overlapping occurrences of `sep`, left to right. */
  function Split(s: string, sep: string): (parts: seq<string>)
    requires |sep| > 0
    ensures |parts| >= 1
    decreases |s|
  {
    match IndexOf(s, sep)
    case None => [s]
    case Some(k) => [s[..k]] + Split(s[k + |sep|..], sep)
  }

  /** `sep.join(parts)`. */
  function Join(parts: seq<string>, sep: string): string
    requires |parts| >= 1
  {
    if |parts| == 1 then parts[0] else parts[0] + sep + Join(parts[1..], sep)
  }

  /** Splitting and joining again gives back the original string. */
  lemma {:induction false} JoinSplit(s: string, sep: string)
    requires |sep| > 0
    ensures Join(Split(s, sep), sep) == s
    decreases |s|
  {
    match IndexOf(s, sep)
    case None =>
    case Some(k) =>
      var rest := s[k + |sep|..];
      JoinSplit(rest, sep);
      SplitAt(s, sep, k);
      JoinCons(s[..k], Split(rest, sep), sep);
      SliceAround(s, sep, k);
  }

  lemma SplitAt(s: string, sep: string, k: nat)
    requires |sep| > 0 && IndexOf(s, sep) == Some(k)
    ensures Split(s, sep) == [s[..k]] + Split(s[k + |sep|..], sep)
  {
  }

  lemma JoinCons(head: string, tail: seq<string>, sep: string)
    requires |tail| >= 1
    ensures Join([head] + tail, sep) == head + sep + Join(tail, sep)
  {
    assert ([head] + tail)[1..] == tail;
  }

  lemma SliceAround(s: string, sep: string, k: nat)
    requires OccursAt(s, sep, k)
    ensures s[..k] + sep + s[k + |sep|..] == s
  {
    assert s[..k] + s[k..k + |sep|] + s[k + |sep|..] == s;
  }

  /** No piece of a split contains the separator. */
  lemma {:induction false} SplitPiecesFree(s: string, sep: string)
    requires |sep| > 0
    ensures forall i: nat, j: nat :: i < |Split(s, sep)| ==> !OccursAt(Split(s, sep)[i], sep, j)
    decreases |s|
  {
    match IndexOf(s, sep)
    case None =>
      forall j: nat ensures !OccursAt(s, sep, j) { }
    case Some(k) =>
      SplitPiecesFree(s[k + |sep|..], sep);
      forall j: nat ensures !OccursAt(s[..k], sep, j) {
        if OccursAt(s[..k], sep, j) {
          assert s[..k][j..j + |sep|] == s[j..j + |sep|];
          assert OccursAt(s, sep, j);
        }
      }
  }

  /** No proper suffix of `sep` is also a prefix of it, so two occurrences of `sep` never overlap. */
  predicate NoSelfOverlap(sep: string) {
    forall d :: 0 < d < |sep| ==> sep[d..] != sep[..|sep| - d]
  }

  /** No piece contains the separator. */
  ghost predicate PiecesFree(parts: seq<string>, sep: string) {
    forall i: nat, j: nat :: i < |parts| ==> !OccursAt(parts[i], sep, j)
  }

  /** The separators the scraper splits on never overlap themselves. */
  lemma SourceSeparators()
    ensures NoSelfOverlap(", ") && NoSelfOverlap(":") && NoSelfOverlap("/") && NoSelfOverlap("?")
  {
    assert ", "[1..][0] == ' ' && ", "[..1][0] == ',';
  }

  /**
    For a separator that does not overlap itself, the pieces are fixed by
    the two facts above: any pieces free of `sep` that join back to `s` are
    `s.split(sep)`.
   */
  lemma {:induction false} SplitUnique(s: string, sep: string, parts: seq<string>)
    requires |sep| > 0 && NoSelfOverlap(sep)
    requires |parts| >= 1 && Join(parts, sep) == s && PiecesFree(parts, sep)
    ensures Split(s, sep) == parts
    decreases |parts|
  {
    if |parts| == 1 {
      assert IndexOf(s, sep).None?;
    } else {
      var head, rest := parts[0], parts[1..];
      var tail := Join(rest, sep);
      assert s == head + sep + tail;
      FirstOccurrence(head, sep, tail);
      SplitAt(s, sep, |head|);
      assert s[..|head|] == head;
      assert s[|head| + |sep|..] == tail;
      assert PiecesFree(rest, sep) by {
        forall i: nat, j: nat | i < |rest| ensures !OccursAt(rest[i], sep, j) {
          assert rest[i] == parts[i + 1];
        }
      }
      SplitUnique(tail, sep, rest);
    }
  }

  /** After a piece free of a non-overlapping `sep`, the first occurrence of `sep` is the one that follows it. */
  lemma FirstOccurrence(head: string, sep: string, tail: string)
    requires |sep| > 0 && NoSelfOverlap(sep)
    requires forall j: nat :: !OccursAt(head, sep, j)
    ensures IndexOf(head + sep + tail, sep) == Some(|head|)
  {
    var s := head + sep + tail;
    assert OccursAt(s, sep, |head|) by {
      assert s[|head|..|head| + |sep|] == sep;
    }
    forall k: nat | k < |head| ensures !OccursAt(s, sep, k) {
      if k + |sep| <= |head| {
        assert s[k..k + |sep|] == head[k..k + |sep|];
        assert !OccursAt(head, sep, k);
      } else if OccursAt(s, sep, k) {
        var d := |head| - k;
        assert sep[d..] != sep[..|sep| - d];
        Straddle(s, sep, k, |head|);
        assert false;
      }
    }
  }

  /** Two occurrences less than `|sep|` apart make `sep` overlap itself. */
  lemma Straddle(s: string, sep: string, k: nat, m: nat)
    requires k < m < k + |sep|
    requires OccursAt(s, sep, k) && OccursAt(s, sep, m)
    ensures sep[m - k..] == sep[..|sep| - (m - k)]
  {
    var d := m - k;
    assert sep[d..] == s[m..k + |sep|] by {
      assert sep == s[k..k + |sep|];
    }
    assert sep[..|sep| - d] == s[m..k + |sep|] by {
      assert sep == s[m..m + |sep|];
    }
  }

  /** For a one-character separator, "no occurrence" means the character is absent. */
  lemma CharFree(s: string, c: char)
    requires forall j: nat :: !OccursAt(s, [c], j)
    ensures c !in s
  {
    if c in s {
      var j :| 0 <= j < |s| && s[j] == c;
      assert s[j..j + 1] == [c];
      assert OccursAt(s, [c], j);
    }
  }

  /** `p` ends `s`, holds no `c`, and is preceded by a `c` unless it is all of `s`. */
  predicate EndPiece(s: string, p: string, c: char) {
    && |p| <= |s| && p == s[|s| - |p|..] && c !in p
    && (|p| < |s| ==> s[|s| - |p| - 1] == c)
  }

  lemma EndPieceAfter(s: string, k: nat, p: string, c: char)
    requires k < |s| && s[k] == c && EndPiece(s[k + 1..], p, c)
    ensures EndPiece(s, p, c)
  {
    var rest := s[k + 1..];
    SuffixOfSuffix(s, k + 1, |p|);
    assert p == s[|s| - |p|..];
    if |p| < |s| {
      if |p| == |rest| {
        assert |s| - |p| - 1 == k;
      } else {
        assert s[|s| - |p| - 1] == rest[|rest| - |p| - 1];
      }
    }
  }

  /** The last `n` characters of a suffix of `s` are the last `n` of `s`. */
  lemma SuffixOfSuffix(s: string, k: nat, n: nat)
    requires k <= |s| && n <= |s| - k
    ensures s[k..][|s| - k - n..] == s[|s| - n..]
  {
  }

  /** The last piece of `s.split([c])` is the part of `s` after its last `c`. */
  lemma {:induction false} LastPiece(s: string, c: char)
    ensures EndPiece(s, Split(s, [c])[|Split(s, [c])| - 1], c)
    decreases |s|
  {
    var parts := Split(s, [c]);
    match IndexOf(s, [c])
    case None =>
      assert parts == [s];
      CharFree(s, c);
    case Some(k) =>
      var rest := s[k + 1..];
      var tail := Split(rest, [c]);
      LastPiece(rest, c);
      assert parts == [s[..k]] + tail;
      assert parts[|parts| - 1] == tail[|tail| - 1];
      assert s[k..k + 1] == [c];
      EndPieceAfter(s, k, tail[|tail| - 1], c);
  }

  /** The first piece of `s.split([c])` is the part of `s` before its first `c`. */
  lemma FirstPiece(s: string, c: char)
    ensures var p := Split(s, [c])[0];
      && |p| <= |s| && p == s[..|p|] && c !in p
      && (|p| < |s| ==> s[|p|] == c)
  {
    SplitPiecesFree(s, [c]);
    CharFree(Split(s, [c])[0], c);
    match IndexOf(s, [c])
    case None =>
    case Some(k) =>
      assert s[k..k + 1] == [c];
  }

  /** A separator whose first character occurs in neither side splits `a + sep + b` into `[a, b]`. */
  lemma SplitAround(a: string, sep: string, b: string)
    requires |sep| > 0 && sep[0] !in a && sep[0] !in b
    ensures Split(a + sep + b, sep) == [a, b]
  {
    var s := a + sep + b;
    assert OccursAt(s, sep, |a|) by {
      assert s[|a|..|a| + |sep|] == sep;
    }
    forall j: nat | j < |a| ensures !OccursAt(s, sep, j) {
      assert s[j] == a[j];
      if j + |sep| <= |s| {
        assert s[j..j + |sep|][0] == s[j];
      }
    }
    forall i: nat ensures !OccursAt(b, sep, i) {
      if i + |sep| <= |b| {
        assert b[i..i + |sep|][0] == b[i];
      }
    }
    var k := IndexOf(s, sep).value;
    assert k == |a|;
    assert s[..k] == a;
    assert s[k + |sep|..] == b;
    assert IndexOf(b, sep) == None;
  }

  // ---------------------------------------------------------------------
  // s.split() with no argument
  // ---------------------------------------------------------------------

  /** Length of the run of non-whitespace characters at the start of `s`. */
  function LeadingRun(s: string): (n: nat)
    ensures n <= |s|
    ensures forall k :: 0 <= k < n ==> !IsSpace(s[k])
    ensures n < |s| ==> IsSpace(s[n])
  {
    if s == [] || IsSpace(s[0]) then 0
    else
      var m := LeadingRun(s[1..]);
      assert forall k :: 1 <= k < m + 1 ==> s[k] == s[1..][k - 1];
      m + 1
  }

  /** `s.split()`: the maximal runs of non-whitespace characters, left to right. */
  function SplitWs(s: string): (tokens: seq<string>)
    ensures forall i :: 0 <= i < |tokens| ==> |tokens[i]| > 0 && NoSpace(tokens[i])
    decreases |s|
  {
    if s == [] then []
    else if IsSpace(s[0]) then SplitWs(s[1..])
    else
      var n := LeadingRun(s);
      [s[..n]] + SplitWs(s[n..])
  }

  /** `gaps[0] + tokens[0] + gaps[1] + ... + tokens[n - 1] + gaps[n]`. */
  function Weave(gaps: seq<string>, tokens: seq<string>): string
    requires |gaps| == |tokens| + 1
    decreases |tokens|
  {
    if tokens == [] then gaps[0] else gaps[0] + tokens[0] + Weave(gaps[1..], tokens[1..])
  }

  /** The whitespace around and between the tokens of `s.split()`: one more gap than tokens. */
  function WsGaps(s: string): (gaps: seq<string>)
    ensures |gaps| == |SplitWs(s)| + 1
    decreases |s|
  {
    if s == [] then [""]
    else if IsSpace(s[0]) then
      var g := WsGaps(s[1..]);
      [[s[0]] + g[0]] + g[1..]
    else [""] + WsGaps(s[LeadingRun(s)..])
  }

  /** Every gap is whitespace. */
  predicate SpaceGaps(g: seq<string>) {
    forall i :: 0 <= i < |g| ==> AllSpace(g[i])
  }

  /** No gap between two tokens is empty. */
  predicate InnerGapsFilled(g: seq<string>, t: seq<string>)
    requires |g| == |t| + 1
  {
    forall i :: 0 < i < |t| ==> |g[i]| > 0
  }

  /** `s` is `t` woven with the whitespace gaps `g`, of which those between two tokens are not empty. */
  predicate Woven(s: string, g: seq<string>, t: seq<string>)
    requires |g| == |t| + 1
  {
    Weave(g, t) == s && SpaceGaps(g) && InnerGapsFilled(g, t)
  }

  /** `s` is its own tokens woven with its own gaps. */
  predicate Covers(s: string) {
    Woven(s, WsGaps(s), SplitWs(s))
  }

  /**
    The tokens of `s.split()` are all of `s` but whitespace: `s` is the
    tokens woven with whitespace gaps, and the gaps between two tokens are
    not empty.
   */
  lemma {:induction false} SplitWsCovers(s: string)
    ensures Weave(WsGaps(s), SplitWs(s)) == s
    ensures forall i :: 0 <= i < |WsGaps(s)| ==> AllSpace(WsGaps(s)[i])
    ensures forall i :: 0 < i < |SplitWs(s)| ==> |WsGaps(s)[i]| > 0
    decreases |s|
  {
    if s == [] {
    } else if IsSpace(s[0]) {
      SplitWsCovers(s[1..]);
      CoversSpace(s);
    } else {
      SplitWsCovers(s[LeadingRun(s)..]);
      CoversToken(s);
    }
  }

  /** Leading whitespace joins the first gap. */
  lemma CoversSpace(s: string)
    requires s != [] && IsSpace(s[0]) && Covers(s[1..])
    ensures Covers(s)
  {
    var rest := s[1..];
    var g, t := WsGaps(rest), SplitWs(rest);
    assert WsGaps(s) == [[s[0]] + g[0]] + g[1..] && SplitWs(s) == t;
    assert [s[0]] + rest == s;
    WovenFront(s[0], rest, g, t);
  }

  /** A leading token comes after an empty gap, and is followed by whitespace or the end. */
  lemma CoversToken(s: string)
    requires s != [] && !IsSpace(s[0]) && Covers(s[LeadingRun(s)..])
    ensures Covers(s)
  {
    var n := LeadingRun(s);
    var rest := s[n..];
    var g, t := WsGaps(rest), SplitWs(rest);
    assert t != [] ==> |g[0]| > 0 by {
      if t != [] {
        FirstGapFilled(rest);
      }
    }
    assert Woven(s[..n] + rest, [""] + g, [s[..n]] + t) by {
      WovenToken(s[..n], rest, g, t);
    }
    assert s[..n] + rest == s;
    TokenStep(s);
  }

  /** One unfolding of the gaps and the tokens at a leading token. */
  lemma TokenStep(s: string)
    requires s != [] && !IsSpace(s[0])
    ensures WsGaps(s) == [""] + WsGaps(s[LeadingRun(s)..])
    ensures SplitWs(s) == [s[..LeadingRun(s)]] + SplitWs(s[LeadingRun(s)..])
  {
  }

  /** After a token, the rest starts with whitespace, so a following token has a gap before it. */
  lemma FirstGapFilled(rest: string)
    requires SplitWs(rest) != [] && (rest != [] ==> IsSpace(rest[0]))
    ensures |WsGaps(rest)[0]| > 0
  {
    assert WsGaps(rest)[0] == [rest[0]] + WsGaps(rest[1..])[0];
  }

  /** A whitespace character in front extends the first gap. */
  lemma WovenFront(c: char, rest: string, g: seq<string>, t: seq<string>)
    requires IsSpace(c) && |g| == |t| + 1 && Woven(rest, g, t)
    ensures Woven([c] + rest, [[c] + g[0]] + g[1..], t)
  {
    WeaveFront(c, g, t);
    GapsFront(c, g, t);
  }

  /** A token in front comes after a new empty gap. */
  lemma WovenToken(w: string, rest: string, g: seq<string>, t: seq<string>)
    requires |g| == |t| + 1 && Woven(rest, g, t)
    requires t != [] ==> |g[0]| > 0
    ensures Woven(w + rest, [""] + g, [w] + t)
  {
    WeaveToken(w, g, t);
    GapsToken(w, g, t);
  }

  lemma GapsFront(c: char, g: seq<string>, t: seq<string>)
    requires IsSpace(c) && |g| == |t| + 1 && SpaceGaps(g) && InnerGapsFilled(g, t)
    ensures SpaceGaps([[c] + g[0]] + g[1..]) && InnerGapsFilled([[c] + g[0]] + g[1..], t)
  {
    var g' := [[c] + g[0]] + g[1..];
    assert forall i :: 0 < i < |g'| ==> g'[i] == g[i];
    assert forall k :: 1 <= k < |g'[0]| ==> g'[0][k] == g[0][k - 1];
  }

  lemma GapsToken(w: string, g: seq<string>, t: seq<string>)
    requires |g| == |t| + 1 && SpaceGaps(g) && InnerGapsFilled(g, t)
    requires t != [] ==> |g[0]| > 0
    ensures SpaceGaps([""] + g) && InnerGapsFilled([""] + g, [w] + t)
  {
    var g' := [""] + g;
    assert forall i :: 0 < i < |g'| ==> g'[i] == g[i - 1];
  }

  lemma WeaveToken(w: string, g: seq<string>, t: seq<string>)
    requires |g| == |t| + 1
    ensures Weave([""] + g, [w] + t) == w + Weave(g, t)
  {
    assert ([""] + g)[1..] == g && ([w] + t)[1..] == t;
    assert "" + w == w;
  }

  lemma WeaveFront(c: char, g: seq<string>, t: seq<string>)
    requires |g| == |t| + 1
    ensures Weave([[c] + g[0]] + g[1..], t) == [c] + Weave(g, t)
  {
    var g' := [[c] + g[0]] + g[1..];
    assert g'[0] == [c] + g[0];
    if t != [] {
      assert g'[1..] == g[1..];
      var w := Weave(g[1..], t[1..]);
      assert Weave(g', t) == ([c] + g[0]) + t[0] + w;
      assert Weave(g, t) == g[0] + t[0] + w;
      ConsAssoc(c, g[0], t[0], w);
    }
  }

  lemma ConsAssoc(c: char, a: string, b: string, w: string)
    ensures ([c] + a) + b + w == [c] + (a + b + w)
  {
  }

  predicate IsWord(t: string) {
    |t| > 0 && NoSpace(t)
  }

  lemma SplitWsWord(t: string)
    requires IsWord(t)
    ensures SplitWs(t) == [t]
  {
    var n := LeadingRun(t);
    assert n == |t|;
    assert t[..n] == t;
  }

  lemma SplitWsFront(a: string, rest: string)
    requires IsWord(a)
    ensures SplitWs(a + " " + rest) == [a] + SplitWs(rest)
  {
    var s := a + " " + rest;
    var n := LeadingRun(s);
    assert s[|a|] == ' ';
    assert forall k :: 0 <= k < |a| ==> s[k] == a[k];
    assert n == |a|;
    assert s[..n] == a;
    assert s[n..] == " " + rest;
    assert (" " + rest)[1..] == rest;
  }

  /** `" ".join(words).split()` gives the words back. */
  lemma {:induction false} SplitWsJoin(words: seq<string>)
    requires |words| >= 1
    requires forall i :: 0 <= i < |words| ==> IsWord(words[i])
    ensures SplitWs(Join(words, " ")) == words
    decreases |words|
  {
    if |words| == 1 {
      SplitWsWord(words[0]);
    } else {
      SplitWsJoin(words[1..]);
      SplitWsFront(words[0], Join(words[1..], " "));
    }
  }

  // ---------------------------------------------------------------------
  // s.strip()
  // ---------------------------------------------------------------------

  /** The first index from `i` on that is not whitespace (or `|s|`). */
  function SkipSpaces(s: string, i: nat): (j: nat)
    requires i <= |s|
    ensures i <= j <= |s|
    ensures forall k :: i <= k < j ==> IsSpace(s[k])
    ensures j < |s| ==> !IsSpace(s[j])
    decreases |s| - i
  {
    if i < |s| && IsSpace(s[i]) then SkipSpaces(s, i + 1) else i
  }

  /** The end of `s[lo..j]` once the whitespace at its end is dropped. */
  function SkipSpacesBack(s: string, lo: nat, j: nat): (e: nat)
    requires lo <= j <= |s|
    ensures lo <= e <= j
    ensures forall k :: e <= k < j ==> IsSpace(s[k])
    ensures e > lo ==> !IsSpace(s[e - 1])
    decreases j - lo
  {
    if j > lo && IsSpace(s[j - 1]) then SkipSpacesBack(s, lo, j - 1) else j
  }

  /** `r` is `s[i..j]`, everything of `s` outside it is whitespace, and `r` neither starts nor ends with whitespace. */
  predicate StrippedAt(s: string, r: string, i: int, j: int) {
    && 0 <= i <= j <= |s| && r == s[i..j]
    && (forall k :: 0 <= k < i ==> IsSpace(s[k]))
    && (forall k :: j <= k < |s| ==> IsSpace(s[k]))
    && (i < j ==> !IsSpace(s[i]) && !IsSpace(s[j - 1]))
  }

  /**
    `s.strip()`: the part of `s` left once the whitespace at both ends is
    removed (empty when `s` is all whitespace).
   */
  function Strip(s: string): (r: string)
    ensures exists i, j :: StrippedAt(s, r, i, j)
  {
    var i := SkipSpaces(s, 0);
    var j := SkipSpacesBack(s, i, |s|);
    assert StrippedAt(s, s[i..j], i, j);
    s[i..j]
  }

  /** `strip()` drops exactly the surrounding whitespace: the pieces around `r` are all whitespace. */
  lemma StripUnique(s: string, r: string, i: int, j: int)
    requires StrippedAt(s, r, i, j)
    ensures r == Strip(s)
  {
    var i0, j0 :| StrippedAt(s, Strip(s), i0, j0);
    if i < j && i0 < j0 {
      assert i == i0 by {
        assert !IsSpace(s[i]) && !IsSpace(s[i0]);
      }
      assert j == j0 by {
        assert !IsSpace(s[j - 1]) && !IsSpace(s[j0 - 1]);
      }
    }
  }

  // ---------------------------------------------------------------------
  // int(s) and decimal rendering
  // ---------------------------------------------------------------------

  predicate IsDigit(c: char) {
    '0' <= c <= '9'
  }

  predicate AllDigits(s: string) {
    forall k :: 0 <= k < |s| ==> IsDigit(s[k])
  }

  function DigitValue(c: char): nat
    requires IsDigit(c)
  {
    c as int - '0' as int
  }

  /** The value of a string of decimal digits (0 for the empty string). */
  function DigitsValue(s: string): nat
    requires AllDigits(s)
    decreases |s|
  {
    if s == [] then 0 else 10 * DigitsValue(s[..|s| - 1]) + DigitValue(s[|s| - 1])
  }

  /** What `int()` accepts: at least one ASCII digit, after an optional sign. */
  predicate IsIntToken(s: string) {
    || (|s| > 0 && AllDigits(s))
    || (|s| > 1 && (s[0] == '+' || s[0] == '-') && AllDigits(s[1..]))
  }

  /**
    `int(s)` for a string without whitespace: an optional sign followed by at
    least one ASCII digit; anything else is a `ValueError`, here `None`.
   */
  function ParseInt(s: string): (r: Option<int>)
    ensures r.Some? <==> IsIntToken(s)
    ensures r.Some? && AllDigits(s) ==> r.value == DigitsValue(s)
    ensures r.Some? && s[0] == '-' ==> r.value == -(DigitsValue(s[1..]) as int)
    ensures r.Some? && s[0] == '+' ==> r.value == DigitsValue(s[1..])
  {
    if |s| > 0 && (s[0] == '+' || s[0] == '-') then
      if |s| > 1 && AllDigits(s[1..]) then
        var v: int := DigitsValue(s[1..]);
        Some(if s[0] == '-' then -v else v)
      else None
    else if |s| > 0 && AllDigits(s) then Some(DigitsValue(s))
    else None
  }

  /** A non-empty run of digits carries no sign and parses to its value. */
  lemma ParseIntOfDigits(s: string)
    requires |s| > 0 && AllDigits(s)
    ensures ParseInt(s) == Some(DigitsValue(s))
  {
    assert IsDigit(s[0]);
  }

  /** Digits written after a non-empty run of digits: the run's value shifted left, plus theirs. */
  lemma ParseIntPrefixed(p: string, v: nat, t: string)
    requires |p| > 0 && AllDigits(p) && DigitsValue(p) == v && AllDigits(t)
    ensures ParseInt(p + t) == Some(v * Pow10(|t|) + DigitsValue(t))
  {
    DigitsValueAppend(p, t);
    ParseIntOfDigits(p + t);
  }

  function Pow10(n: nat): (r: nat)
    ensures r >= 1
  {
    if n == 0 then 1 else 10 * Pow10(n - 1)
  }

  /** The value of a concatenation of digit strings shifts the left part by the length of the right. */
  lemma {:induction false} DigitsValueAppend(p: string, t: string)
    requires AllDigits(p) && AllDigits(t)
    ensures AllDigits(p + t)
    ensures DigitsValue(p + t) == DigitsValue(p) * Pow10(|t|) + DigitsValue(t)
    decreases |t|
  {
    if t == [] {
      assert p + t == p;
    } else {
      var t' := t[..|t| - 1];
      DigitsValueAppend(p, t');
      assert (p + t)[..|p + t| - 1] == p + t';
      assert (p + t)[|p + t| - 1] == t[|t| - 1];
      var a, b, q := DigitsValue(p), DigitsValue(t'), Pow10(|t'|);
      var d := DigitValue(t[|t| - 1]);
      assert DigitsValue(p + t) == 10 * DigitsValue(p + t') + d;
      assert DigitsValue(t) == 10 * b + d;
      assert Pow10(|t|) == 10 * q;
      ShiftDigit(a, q, b, d);
    }
  }

  lemma ShiftDigit(a: int, q: int, b: int, d: int)
    ensures 10 * (a * q + b) + d == a * (10 * q) + (10 * b + d)
  {
  }

  function DigitChar(d: nat): (c: char)
    requires d < 10
    ensures IsDigit(c) && DigitValue(c) == d
  {
    ('0' as int + d) as char
  }

  /** `str(n)` for a natural number: its decimal digits without leading zeros. */
  function NatToString(n: nat): (s: string)
    ensures |s| > 0 && AllDigits(s)
    decreases n
  {
    if n < 10 then [DigitChar(n)] else NatToString(n / 10) + [DigitChar(n % 10)]
  }

  /** `int("-" + str(n)) == -n` and `int("+" + str(n)) == n`. */
  lemma SignedRoundTrip(n: nat)
    ensures ParseInt("-" + NatToString(n)) == Some(-(n as int))
    ensures ParseInt("+" + NatToString(n)) == Some(n)
  {
    NatToStringRoundTrip(n);
    var s := NatToString(n);
    assert ("-" + s)[1..] == s && ("+" + s)[1..] == s;
  }

  /** `int(str(n)) == n`. */
  lemma {:induction false} NatToStringRoundTrip(n: nat)
    ensures DigitsValue(NatToString(n)) == n
    ensures ParseInt(NatToString(n)) == Some(n)
    decreases n
  {
    var s := NatToString(n);
    if n >= 10 {
      NatToStringRoundTrip(n / 10);
      assert s[..|s| - 1] == NatToString(n / 10);
    }
    assert !(s[0] == '+' || s[0] == '-') by { assert IsDigit(s[0]); }
  }
}
