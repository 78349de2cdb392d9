/** The template replacement of configure.c: every input string is replaced by its output
    string in place, in a buffer whose text grows or shrinks on the way. */
module TemplateReplace {

  // ------------------------------------------------------------------ replace all

  predicate StartsWith(t: string, p: string) {
    |p| <= |t| && t[..|p|] == p
  }

  /** The leftmost non-overlapping replacement of all p in t by r. */
  function ReplaceAll(t: string, p: string, r: string): string
    requires |p| >= 1
  {
    if t == [] then []
    else if StartsWith(t, p) then r + ReplaceAll(t[|p|..], p, r)
    else [t[0]] + ReplaceAll(t[1..], p, r)
  }

  /** The text between the matches. */
  function Pieces(t: string, p: string): (pieces: seq<string>)
    requires |p| >= 1
    ensures |pieces| >= 1
  {
    if t == [] then [[]]
    else if StartsWith(t, p) then [[]] + Pieces(t[|p|..], p)
    else var rest := Pieces(t[1..], p); [[t[0]] + rest[0]] + rest[1..]
  }

  function Joined(pieces: seq<string>, glue: string): string
    requires |pieces| >= 1
  {
    if |pieces| == 1 then pieces[0] else pieces[0] + glue + Joined(pieces[1..], glue)
  }

  /** p begins nowhere in t before position n. */
  ghost predicate BeginsNowhere(t: string, p: string, n: nat) {
    forall x :: 0 <= x < n && x <= |t| ==> !StartsWith(t[x..], p)
  }

  /** Each match between the pieces is the first one after the match before it. */
  ghost predicate AreLeftmost(pieces: seq<string>, p: string)
    requires |pieces| >= 1
  {
    if |pieces| == 1 then BeginsNowhere(pieces[0], p, |pieces[0]| + 1)
    else BeginsNowhere(Joined(pieces, p), p, |pieces[0]|) && AreLeftmost(pieces[1..], p)
  }

  /** The pieces glued with p are the text, glued with r they are its replacement. */
  lemma ReplacesTheLeftmost(t: string, p: string, r: string)
    requires |p| >= 1
    ensures Joined(Pieces(t, p), p) == t && Joined(Pieces(t, p), r) == ReplaceAll(t, p, r)
    ensures AreLeftmost(Pieces(t, p), p)
  {
    PiecesAreLeftmost(t, p);
    GluedIsReplaced(t, p, r);
  }

  lemma {:induction false} GluedIsReplaced(t: string, p: string, r: string)
    requires |p| >= 1
    ensures Joined(Pieces(t, p), r) == ReplaceAll(t, p, r)
  {
    if t == [] {
    } else if StartsWith(t, p) {
      GluedIsReplaced(t[|p|..], p, r);
      PutFirst(Pieces(t[|p|..], p), r);
    } else {
      GluedIsReplaced(t[1..], p, r);
      PrependJoined(Pieces(t[1..], p), t[0], r);
    }
  }

  lemma {:induction false} PiecesAreLeftmost(t: string, p: string)
    requires |p| >= 1
    ensures Joined(Pieces(t, p), p) == t && AreLeftmost(Pieces(t, p), p)
  {
    if t == [] {
    } else if StartsWith(t, p) {
      PiecesAreLeftmost(t[|p|..], p);
      PutFirst(Pieces(t[|p|..], p), p);
    } else {
      var rest := Pieces(t[1..], p);
      PiecesAreLeftmost(t[1..], p);
      PrependJoined(rest, t[0], p);
      PrependNowhere(t, p, if |rest| == 1 then |t| else |rest[0]|);
    }
  }

  lemma PutFirst(rest: seq<string>, glue: string)
    requires |rest| >= 1
    ensures Joined([[]] + rest, glue) == glue + Joined(rest, glue)
    ensures ([[]] + rest)[1..] == rest
  {
    assert [] + glue == glue;
  }

  lemma PrependJoined(rest: seq<string>, c: char, glue: string)
    requires |rest| >= 1
    ensures Joined([[c] + rest[0]] + rest[1..], glue) == [c] + Joined(rest, glue)
    ensures ([[c] + rest[0]] + rest[1..])[1..] == rest[1..]
  {
    if |rest| > 1 {
      assert [c] + rest[0] + glue + Joined(rest[1..], glue) == [c] + (rest[0] + glue + Joined(rest[1..], glue));
    }
  }

  lemma PrependNowhere(t: string, p: string, n: nat)
    requires t != [] && !StartsWith(t, p) && BeginsNowhere(t[1..], p, n)
    ensures BeginsNowhere(t, p, n + 1)
  {
    forall x | 0 <= x < n + 1 && x <= |t|
      ensures !StartsWith(t[x..], p)
    {
      if x == 0 {
        assert t[0..] == t;
      } else {
        assert t[x..] == t[1..][x - 1..];
      }
    }
  }

  // ------------------------------------------------------- the edge of the text

  /** Behind the last match the text is all of p but its last character. */
  predicate HasOpenEnd(t: string, p: string)
    requires |p| >= 2
  {
    if |t| < |p| then t == p[..|p| - 1]
    else if StartsWith(t, p) then HasOpenEnd(t[|p|..], p)
    else HasOpenEnd(t[1..], p)
  }

  /** The character found behind the text when the search comes to its end: left over from
      the text itself if it has become shorter, else what was in the buffer before. */
  ghost function Behind(b: string, len: nat, p: string, r: string): char
    requires |p| >= 2 && len < |b| && |ReplaceAll(b[..len], p, r)| < |b|
  {
    var done := |ReplaceAll(b[..len], p, r)|;
    if done < len && |r| < |p| <= len then b[len - (|p| - |r|)] else b[done]
  }

  /** The search takes the character behind the text for the end of a match. */
  ghost predicate Overruns(b: string, len: nat, p: string, r: string)
    requires |p| >= 2 && len < |b| && |ReplaceAll(b[..len], p, r)| < |b|
  {
    HasOpenEnd(b[..len], p) && Behind(b, len, p, r) == p[|p| - 1]
  }

  /** An open end is the end of the text, before and after the replacement. */
  lemma {:induction false} OpenEndStays(t: string, p: string, r: string) returns (head: string, done: string)
    requires |p| >= 2 && HasOpenEnd(t, p)
    ensures t == head + p[..|p| - 1] && ReplaceAll(t, p, r) == done + p[..|p| - 1]
  {
    var open := p[..|p| - 1];
    if |t| < |p| {
      head, done := [], [];
      TooShort(t, p, r);
    } else if StartsWith(t, p) {
      head, done := OpenEndStays(t[|p|..], p, r);
      assert t == p + t[|p|..] && p + (head + open) == (p + head) + open;
      assert r + (done + open) == (r + done) + open;
      head, done := p + head, r + done;
    } else {
      head, done := OpenEndStays(t[1..], p, r);
      assert t == [t[0]] + t[1..] && [t[0]] + (head + open) == ([t[0]] + head) + open;
      assert [t[0]] + (done + open) == ([t[0]] + done) + open;
      head, done := [t[0]] + head, [t[0]] + done;
    }
  }

  lemma {:induction false} TooShort(t: string, p: string, r: string)
    requires |p| >= 1 && |t| < |p|
    ensures ReplaceAll(t, p, r) == t
  {
    if t != [] {
      TooShort(t[1..], p, r);
    }
  }

  // ------------------------------------------------------------------- in place

  /** The buffer after the |p| characters at i of a text of length len became r. */
  function Spliced(b: string, i: nat, len: nat, l1: nat, r: string): (s: string)
    requires i + l1 <= len + 1 && len <= |b| && len - l1 + |r| <= |b| && i + |r| <= |b|
    ensures |s| == |b|
  {
    if i + l1 <= len then b[..i] + r + b[i + l1..len] + b[len - l1 + |r|..]
    else b[..i] + r + b[i + |r|..]
  }

  /** The first place from i on, through len, that holds c; else len+1. */
  method FirstAt(buf: array<char>, i: nat, len: nat, c: char) returns (next: nat)
    requires i <= len < buf.Length
    ensures i <= next <= len + 1 && forall x :: i <= x < next ==> buf[x] != c
    ensures next <= len ==> buf[next] == c
  {
    next := i;
    while next <= len && buf[next] != c
      invariant i <= next <= len + 1
      invariant forall x :: i <= x < next ==> buf[x] != c
    {
      next := next + 1;
    }
  }

  /** How much of p stands at i, the character at len included. */
  method MatchLength(buf: array<char>, i: nat, len: nat, p: string) returns (k: nat)
    requires i <= len + 1 <= buf.Length
    ensures k <= |p|
    ensures k == |p| <==> i + |p| <= len + 1 && buf[..][i..i + |p|] == p
  {
    k := 0;
    while k + i <= len && k < |p| && buf[i + k] == p[k]
      invariant 0 <= k <= |p| && k + i <= len + 1
      invariant buf[..][i..i + k] == p[..k]
    {
      k := k + 1;
    }
    if k < |p| && i + |p| <= len + 1 {
      assert buf[..][i..i + |p|][k] == buf[i + k] != p[k];
    }
  }

  method ShiftLeft(buf: array<char>, from: nat, to: int, m: nat)
    requires m > 0 && to + m <= buf.Length
    modifies buf
    ensures forall x :: 0 <= x < buf.Length ==>
      buf[x] == if from <= x < to then old(buf[x + m]) else old(buf[x])
  {
    var k := from;
    while k < to
      invariant from <= k && (k <= to || k == from)
      invariant forall x :: k <= x < buf.Length ==> buf[x] == old(buf[x])
      invariant forall x :: 0 <= x < from && x < buf.Length ==> buf[x] == old(buf[x])
      invariant forall x :: from <= x < k && x < to ==> buf[x] == old(buf[x + m])
    {
      buf[k] := buf[k + m];
      k := k + 1;
    }
  }

  method ShiftRight(buf: array<char>, from: nat, to: int, d: nat)
    requires to <= buf.Length
    modifies buf
    ensures forall x :: 0 <= x < buf.Length && !(from <= x < to) ==> buf[x] == old(buf[x])
    ensures forall x :: from <= x < to && d <= x ==> buf[x] == old(buf[x - d])
  {
    var k := to;
    while k > from
      invariant k <= to && (from <= k || k == to)
      invariant forall x :: 0 <= x < buf.Length && !(k <= x < to) ==> buf[x] == old(buf[x])
      invariant forall x :: k <= x < to && d <= x ==> buf[x] == old(buf[x - d])
    {
      k := k - 1;
      if k >= d {
        // the cells left out lie before from + d and are written next
        buf[k] := buf[k - d];
      }
    }
  }

  ghost predicate IsShifted(b: string, c: string, from: nat, to: int, m: int, l2: nat) {
    && to <= |b| == |c| && to + m <= |b| && -m <= l2
    && (forall x :: 0 <= x < |b| && !(from <= x < to) ==> c[x] == b[x])
    && (forall x :: from + l2 <= x < to ==> c[x] == b[x + m])
  }

  method Shift(buf: array<char>, from: nat, to: int, m: int, l2: nat)
    requires to <= buf.Length && to + m <= buf.Length && -m <= l2
    modifies buf
    ensures IsShifted(old(buf[..]), buf[..], from, to, m, l2)
  {
    if m > 0 {
      ShiftLeft(buf, from, to, m);
    } else {
      ShiftRight(buf, from, to, -m);
    }
  }

  method Write(buf: array<char>, at: nat, r: string)
    requires at + |r| <= buf.Length
    modifies buf
    ensures buf[..] == old(buf[..at]) + r + old(buf[at + |r|..])
  {
    for k := 0 to |r|
      invariant buf[..] == old(buf[..at]) + r[..k] + old(buf[at + k..])
    {
      buf[at + k] := r[k];
    }
  }

  /** Shifted from b to c, then written. */
  lemma IsSpliced(b: string, c: string, i: nat, len: nat, l1: nat, r: string)
    requires i + l1 <= len + 1 && len <= |b| && len - l1 + |r| <= |b| && i + |r| <= |b|
    requires IsShifted(b, c, i, len - l1 + |r|, l1 - |r|, |r|)
    ensures |c| == |b| && c[..i] + r + c[i + |r|..] == Spliced(b, i, len, l1, r)
  {
    assert c[..i] == b[..i];
    if i + l1 <= len {
      var last := len - l1 + |r|;
      assert c[i + |r|..last] == b[i + l1..len] && c[last..] == b[last..];
      assert c[i + |r|..] == c[i + |r|..last] + c[last..];
      Regroup(c[..i] + r, c[i + |r|..last], c[last..]);
    } else {
      assert c[i + |r|..] == b[i + |r|..];
    }
  }

  lemma SplicedParts(b: string, i: nat, len: nat, l1: nat, r: string)
    requires i + l1 <= len <= |b| && len - l1 + |r| <= |b|
    ensures var c, last := Spliced(b, i, len, l1, r), len - l1 + |r|;
      && c[..i + |r|] == b[..i] + r && c[i + |r|..last] == b[i + l1..len]
      && forall x :: last <= x < |b| ==> c[x] == b[x]
  {
  }

  // -------------------------------------------------------------- the search

  /** What replacing p by r leaves of the buffer b, whose first len characters are the text. */
  ghost predicate Leaves(b: string, len: nat, p: string, r: string, b': string, len': int)
    requires HasRoom(b, len, p, r)
  {
    var done := ReplaceAll(b[..len], p, r);
    if Overruns(b, len, p, r) then
      && |done| >= |p| - 1 && len' == |done| - |p| + |r| && len' < |b'|
      && b'[..len' + 1] == done[..|done| - (|p| - 1)] + r
    else
      len' == |done| <= |b'| && b'[..len'] == done
  }

  ghost predicate HasRoom(b: string, len: nat, p: string, r: string) {
    |p| >= 2 && len < |b| && |ReplaceAll(b[..len], p, r)| + |r| < |b|
  }

  /** The search stands at i, which was place `at` of the text b[..len]. */
  ghost predicate Searching(b: string, len: nat, p: string, r: string, b': string, i: nat, len': int, at: nat)
    requires HasRoom(b, len, p, r)
  {
    && Aligned(b, len, p, r, b', i, len', at)
    && EdgeIsKnown(b, len, p, r, b', i, len', at)
    && (HasOpenEnd(b[..len], p) == HasOpenEnd(b[at..len], p)
        || (len - at < |p| - 1 && !Overruns(b, len, p, r)))
  }

  /** Replaced up to i, as it was from there on. */
  ghost predicate Aligned(b: string, len: nat, p: string, r: string, b': string, i: nat, len': int, at: nat)
    requires |p| >= 1 && len <= |b|
  {
    && at <= len && i <= len' < |b'| == |b| && len' - i == len - at
    && b'[i..len'] == b[at..len]
    && ReplaceAll(b[..len], p, r) == b'[..i] + ReplaceAll(b[at..len], p, r)
  }

  /** Where the character behind the text comes from. */
  ghost predicate EdgeIsKnown(b: string, len: nat, p: string, r: string, b': string, i: nat, len': int, at: nat) {
    && at <= len < |b| && i <= len' < |b'| == |b| && len' - i == len - at
    && (|r| < |p| ==> i <= at) && (|r| >= |p| ==> i >= at)
    && (if i < at then |p| <= len && b'[len'] == b[len - (|p| - |r|)]
        else forall x :: len' <= x < |b| ==> b'[x] == b[x])
  }

  lemma {:induction false} ReplacedLength(t: string, p: string, r: string)
    requires |p| >= 1
    ensures |r| >= |p| ==> |ReplaceAll(t, p, r)| >= |t|
    ensures |r| <= |p| ==> |ReplaceAll(t, p, r)| <= |t|
  {
    if t == [] {
    } else if StartsWith(t, p) {
      ReplacedLength(t[|p|..], p, r);
    } else {
      ReplacedLength(t[1..], p, r);
    }
  }

  /** No match begins in the first n characters of t. */
  lemma {:induction false} Unmatched(t: string, p: string, r: string, n: nat)
    requires |p| >= 2 && n <= |t|
    requires forall x :: 0 <= x < n ==> t[x] != p[0]
    ensures ReplaceAll(t, p, r) == t[..n] + ReplaceAll(t[n..], p, r)
    ensures HasOpenEnd(t, p) == HasOpenEnd(t[n..], p)
  {
    if n > 0 {
      Unmatched(t[1..], p, r, n - 1);
      assert t[1..][n - 1..] == t[n..] && [t[0]] + t[1..][..n - 1] == t[..n];
      if |t| < |p| {
        assert t != p[..|p| - 1];
        assert |t[1..]| < |p| - 1;
      }
    } else {
      assert t[..0] == [] && t[0..] == t;
    }
  }

  /** The search moves on over n characters that stay as they are. */
  lemma AlignedOn(b: string, len: nat, p: string, r: string, b': string, i: nat, len': int, at: nat, n: nat)
    requires |p| >= 1 && len <= |b| && Aligned(b, len, p, r, b', i, len', at) && at + n <= len
    requires var t := b[at..len]; ReplaceAll(t, p, r) == t[..n] + ReplaceAll(t[n..], p, r)
    ensures Aligned(b, len, p, r, b', i + n, len', at + n)
  {
    hide ReplaceAll;
    var t := b[at..len];
    assert t[n..] == b[at + n..len] && b'[i + n..len'] == b'[i..len'][n..];
    assert b'[..i + n] == b'[..i] + b'[i..len'][..n];
    assert b'[..i] + (t[..n] + ReplaceAll(t[n..], p, r)) == b'[..i + n] + ReplaceAll(t[n..], p, r);
  }

  lemma Skipped(b: string, len: nat, p: string, r: string, b': string, i: nat, len': int, at: nat, n: nat)
    requires HasRoom(b, len, p, r) && Searching(b, len, p, r, b', i, len', at) && i + n <= len'
    requires forall x :: i <= x < i + n ==> b'[x] != p[0]
    ensures Searching(b, len, p, r, b', i + n, len', at + n)
  {
    hide ReplaceAll, Overruns, HasOpenEnd;
    var t := b[at..len];
    forall x | 0 <= x < n
      ensures t[x] != p[0]
    {
      assert t[x] == b'[i..len'][x] == b'[i + x];
    }
    Unmatched(t, p, r, n);
    AlignedOn(b, len, p, r, b', i, len', at, n);
    assert t[n..] == b[at + n..len];
  }

  /** Just before an open end, the character behind it is the one behind the text. */
  lemma StandsBeforeOpenEnd(b: string, len: nat, p: string, r: string, b': string, i: nat, len': int, at: nat)
    requires HasRoom(b, len, p, r) && Searching(b, len, p, r, b', i, len', at)
    requires b[at..len] == p[..|p| - 1]
    ensures Overruns(b, len, p, r) <==> b'[len'] == p[|p| - 1]
    ensures ReplaceAll(b[..len], p, r) == b'[..i] + p[..|p| - 1]
  {
    TooShort(b[at..len], p, r);
    assert HasOpenEnd(b[at..len], p);
    hide ReplaceAll, HasOpenEnd;
    assert |ReplaceAll(b[..len], p, r)| == len';
  }

  lemma OneMore(b: string, i: nat, len: nat, p: string)
    requires i <= len < |b| && |p| >= 1 && b[i..len] == p[..|p| - 1]
    ensures b[i..i + |p|] == p <==> b[len] == p[|p| - 1]
  {
    assert b[i..i + |p|] == b[i..len] + [b[len]] && p == p[..|p| - 1] + [p[|p| - 1]];
  }

  lemma Missed(b: string, len: nat, p: string, r: string, b': string, i: nat, len': int, at: nat)
    requires HasRoom(b, len, p, r) && Searching(b, len, p, r, b', i, len', at) && i < len'
    requires !(i + |p| <= len' + 1 && b'[i..i + |p|] == p)
    ensures Searching(b, len, p, r, b', i + 1, len', at + 1)
  {
    var t := b[at..len];
    assert i + |p| <= len' ==> b'[i..i + |p|] == b'[i..len'][..|p|];
    assert !StartsWith(t, p);
    assert ReplaceAll(t, p, r) == [t[0]] + ReplaceAll(t[1..], p, r);
    assert |t| != |p| - 1 ==> HasOpenEnd(t, p) == HasOpenEnd(t[1..], p);
    assert |t| == |p| - 1 ==> HasOpenEnd(t, p) == (t == p[..|p| - 1]) && !HasOpenEnd(t[1..], p);
    if t == p[..|p| - 1] {
      StandsBeforeOpenEnd(b, len, p, r, b', i, len', at);
      OneMore(b', i, len', p);
    }
    hide Overruns, ReplaceAll, HasOpenEnd;
    assert [t[0]] == t[..1] && t[1..] == b[at + 1..len];
    AlignedOn(b, len, p, r, b', i, len', at, 1);
  }

  lemma Matched(b: string, len: nat, p: string, r: string, b': string, i: nat, len': int, at: nat)
    requires HasRoom(b, len, p, r) && Searching(b, len, p, r, b', i, len', at)
    requires i + |p| <= len' && b'[i..i + |p|] == p
    ensures len' - |p| + |r| < |b| && i + |r| <= |b|
    ensures Searching(b, len, p, r, Spliced(b', i, len', |p|, r), i + |r|, len' - |p| + |r|, at + |p|)
  {
    var t := b[at..len];
    assert t[|p|..] == b[at + |p|..len] && t[..|p|] == b'[i..len'][..|p|] == b'[i..i + |p|];
    assert StartsWith(t, p);
    assert ReplaceAll(t, p, r) == r + ReplaceAll(t[|p|..], p, r);
    assert HasOpenEnd(t, p) == HasOpenEnd(t[|p|..], p);
    ReplacedLength(t[|p|..], p, r);
    hide Overruns, ReplaceAll, HasOpenEnd;
    AlignedAfter(b, len, p, r, b', i, len', at);
    EdgeAfter(b, len, p, r, b', i, len', at);
  }

  lemma Regroup(a: string, b: string, c: string)
    ensures a + (b + c) == (a + b) + c
  {
  }

  lemma Drop(b: string, i: nat, len: nat, n: nat)
    requires i + n <= len <= |b|
    ensures b[i..len][n..] == b[i + n..len]
  {
  }

  lemma AlignedAfter(b: string, len: nat, p: string, r: string, b': string, i: nat, len': int, at: nat)
    requires |p| >= 1 && len <= |b| && Aligned(b, len, p, r, b', i, len', at) && i + |p| <= len'
    requires len' - |p| + |r| < |b| && i + |r| <= |b|
    requires var t := b[at..len]; ReplaceAll(t, p, r) == r + ReplaceAll(t[|p|..], p, r)
    ensures Aligned(b, len, p, r, Spliced(b', i, len', |p|, r), i + |r|, len' - |p| + |r|, at + |p|)
  {
    hide ReplaceAll, Spliced;
    var t := b[at..len];
    SplicedParts(b', i, len', |p|, r);
    Regroup(b'[..i], r, ReplaceAll(t[|p|..], p, r));
    Drop(b, at, len, |p|);
    Drop(b', i, len', |p|);
  }

  lemma EdgeAfter(b: string, len: nat, p: string, r: string, b': string, i: nat, len': int, at: nat)
    requires EdgeIsKnown(b, len, p, r, b', i, len', at) && i + |p| <= len' && b'[i..len'] == b[at..len]
    requires len' - |p| + |r| < |b| && i + |r| <= |b|
    ensures EdgeIsKnown(b, len, p, r, Spliced(b', i, len', |p|, r), i + |r|, len' - |p| + |r|, at + |p|)
  {
    hide Spliced;
    var last := len' - |p| + |r|;
    SplicedParts(b', i, len', |p|, r);
    if |r| < |p| {
      assert b'[last] == b'[i..len'][last - i] == b[at..len][last - i] == b[len - (|p| - |r|)];
    }
  }

  lemma Overran(b: string, len: nat, p: string, r: string, b': string, i: nat, len': int, at: nat)
    requires HasRoom(b, len, p, r) && Searching(b, len, p, r, b', i, len', at)
    requires i + |p| == len' + 1 && b'[i..i + |p|] == p
    ensures i + |r| <= |b|
    ensures Leaves(b, len, p, r, Spliced(b', i, len', |p|, r), len' - |p| + |r|)
  {
    assert b[at..len] == b'[i..len'] == b'[i..i + |p|][..|p| - 1];
    assert b'[len'] == b'[i..i + |p|][|p| - 1];
    StandsBeforeOpenEnd(b, len, p, r, b', i, len', at);
    var done := ReplaceAll(b[..len], p, r);
    assert done[..|done| - (|p| - 1)] == b'[..i];
    var c := Spliced(b', i, len', |p|, r);
    assert c[..i + |r|] == b'[..i] + r;
  }

  lemma AtTheEnd(b: string, len: nat, p: string, r: string, b': string, len': int, at: nat)
    requires HasRoom(b, len, p, r) && 0 <= len' && Searching(b, len, p, r, b', len', len', at)
    ensures Leaves(b, len, p, r, b', len')
  {
    assert b[at..len] == [];
    assert b'[..len'] + [] == b'[..len'];
  }

  lemma NotHere(b: string, len: nat, p: string, r: string, b': string, i: nat, len': int, at: nat)
    requires HasRoom(b, len, p, r) && 0 <= len' && i <= len' + 1 && at <= len
    requires Searching(b, len, p, r, b', if i <= len' then i else len', len', at)
    requires !(i + |p| <= len' + 1 <= |b'| && b'[i..i + |p|] == p)
    ensures i + 1 < len' ==> Searching(b, len, p, r, b', i + 1, len', at + 1)
    ensures i + 1 >= len' ==> Leaves(b, len, p, r, b', len')
  {
    if i < len' {
      Missed(b, len, p, r, b', i, len', at);
      hide Searching, Leaves;
      if i + 1 == len' {
        AtTheEnd(b, len, p, r, b', len', at + 1);
      }
    } else {
      AtTheEnd(b, len, p, r, b', len', at);
    }
  }

  lemma Bounds(b: string, len: nat, p: string, r: string, b': string, i: nat, len': int, at: nat)
    requires HasRoom(b, len, p, r) && Searching(b, len, p, r, b', i, len', at)
    ensures |p| >= 2 && at <= len && i <= len' < |b'| == |b| && len' - i == len - at
  {
  }

  class Text {
    const buf: array<char>           // s
    var len: int                     // len[0]

    constructor (buf: array<char>, len: nat)
      requires len < buf.Length
      ensures this.buf == buf && this.len == len
    {
      this.buf, this.len := buf, len;
    }

    /** Make room or close up, then write r. */
    method Substitute(i: nat, l1: nat, r: string)
      requires 0 <= len < buf.Length && i + l1 <= len + 1 && l1 >= 1
      requires len - l1 + |r| < buf.Length && i + |r| <= buf.Length
      modifies this`len, buf
      ensures len == old(len) - l1 + |r|
      ensures buf[..] == Spliced(old(buf[..]), i, old(len), l1, r)
    {
      hide Spliced, IsShifted;
      ghost var b := buf[..];
      len := len - (l1 - |r|);
      Shift(buf, i, len, l1 - |r|, |r|);
      IsSpliced(b, buf[..], i, len + (l1 - |r|), l1, r);
      assert buf[..i] == buf[..][..i] && buf[i + |r|..] == buf[..][i + |r|..];
      Write(buf, i, r);
    }

    /** One round from nxt_i on. */
    method Round(p: string, r: string, i: nat, ghost b: string, ghost n: nat, ghost at: nat)
      returns (next: nat, ghost at': nat)
      requires HasRoom(b, n, p, r) && Searching(b, n, p, r, buf[..], i, len, at)
      modifies this`len, buf
      ensures next < len ==> Searching(b, n, p, r, buf[..], next, len, at') && at < at'
      ensures next >= len ==> Leaves(b, n, p, r, buf[..], len)
    {
      hide Searching, Leaves, HasRoom;
      Bounds(b, n, p, r, buf[..], i, len, at);
      next := FirstAt(buf, i, len, p[0]);
      ghost var n' := if next <= len then next - i else len - i;
      at' := at + n';
      Skipped(b, n, p, r, buf[..], i, len, at, n');
      var k := MatchLength(buf, next, len, p);
      if k == |p| {
        next, at' := PutReplacement(p, r, next, b, n, at');
      } else {
        NotHere(b, n, p, r, buf[..], next, len, at');
        next := next + 1;
        at' := at' + 1;
      }
    }

    method PutReplacement(p: string, r: string, i: nat, ghost b: string, ghost n: nat, ghost at: nat)
      returns (next: nat, ghost at': nat)
      requires HasRoom(b, n, p, r) && Searching(b, n, p, r, buf[..], i, len, at)
      requires |p| >= 2 && i + |p| <= len + 1 && len < buf.Length && buf[..][i..i + |p|] == p
      modifies this`len, buf
      ensures next < len ==> Searching(b, n, p, r, buf[..], next, len, at') && at < at'
      ensures next >= len ==> Leaves(b, n, p, r, buf[..], len)
    {
      hide Searching, Leaves, HasRoom, Spliced;
      Bounds(b, n, p, r, buf[..], i, len, at);
      at' := at + |p|;
      if i + |p| <= len {
        Matched(b, n, p, r, buf[..], i, len, at);
        Substitute(i, |p|, r);
        Bounds(b, n, p, r, buf[..], i + |r|, len, at');
        if i + |r| == len {
          AtTheEnd(b, n, p, r, buf[..], len, at');
        }
      } else {
        Overran(b, n, p, r, buf[..], i, len, at);
        Substitute(i, |p|, r);
      }
      next := i + |r|;
    }

    /** The rounds for one input string. */
    method ReplaceOne(p: string, r: string)
      requires 0 <= len && HasRoom(buf[..], len, p, r)
      modifies this`len, buf
      ensures Leaves(old(buf[..]), old(len), p, r, buf[..], len)
    {
      ghost var b: string, n: nat := buf[..], len;
      var i: nat := 0;
      ghost var at: nat := 0;
      assert b[..0] + ReplaceAll(b[..n], p, r) == ReplaceAll(b[..n], p, r);
      assert b[0..n] == b[..n];
      assert Searching(b, n, p, r, b, 0, n, 0);
      hide Searching, Leaves, HasRoom;
      while true
        invariant Searching(b, n, p, r, buf[..], i, len, at)
        decreases n - at
      {
        Bounds(b, n, p, r, buf[..], i, len, at);
        i, at := Round(p, r, i, b, n, at);
        if i >= len {
          break;
        }
        Bounds(b, n, p, r, buf[..], i, len, at);
      }
    }

    /** replace: all input strings one after the other. */
    method Replace(inputs: seq<string>, outputs: seq<string>)
      requires 0 <= len < buf.Length && Fits(buf[..len], inputs, outputs, buf.Length)
      modifies this`len, buf
      ensures 0 <= len < buf.Length
      ensures buf[..len] == ReplaceEach(old(buf[..len]), inputs, outputs, |inputs|)
    {
      hide Fits, HasRoom, Leaves, ReplaceEach;
      ghost var t := buf[..len];
      Start(t, inputs, outputs, buf.Length);
      for j := 0 to |inputs|
        invariant 0 <= len < buf.Length && |inputs| == |outputs| && AllLong(inputs)
        invariant buf[..][..len] == ReplaceEach(t, inputs, outputs, j)
      {
        ghost var b, n := buf[..], len;
        RoomForNext(t, inputs, outputs, j, b, n);
        ReplaceOne(inputs[j], outputs[j]);
        Next(t, inputs, outputs, j, b, n, buf[..], len);
      }
      assert buf[..][..len] == buf[..len];
    }
  }

  ghost predicate AllLong(inputs: seq<string>) {
    forall i :: 0 <= i < |inputs| ==> |inputs[i]| >= 2
  }

  /** The buffer has room for each replacement, and none meets an open end. */
  ghost predicate Fits(t: string, inputs: seq<string>, outputs: seq<string>, size: nat) {
    && |inputs| == |outputs| && AllLong(inputs)
    && forall j :: 0 <= j < |inputs| ==>
      var u := ReplaceEach(t, inputs, outputs, j);
      !HasOpenEnd(u, inputs[j]) && |ReplaceAll(u, inputs[j], outputs[j])| + |outputs[j]| < size
  }

  lemma Start(t: string, inputs: seq<string>, outputs: seq<string>, size: nat)
    requires Fits(t, inputs, outputs, size)
    ensures |inputs| == |outputs| && AllLong(inputs) && ReplaceEach(t, inputs, outputs, 0) == t
  {
  }

  lemma RoomForNext(t: string, inputs: seq<string>, outputs: seq<string>, j: nat, b: string, len: nat)
    requires j < |inputs| == |outputs| && AllLong(inputs) && len < |b| && Fits(t, inputs, outputs, |b|)
    requires b[..len] == ReplaceEach(t, inputs, outputs, j)
    ensures HasRoom(b, len, inputs[j], outputs[j])
  {
    hide ReplaceAll, HasOpenEnd;
  }

  lemma Next(t: string, inputs: seq<string>, outputs: seq<string>, j: nat,
             b: string, len: nat, b': string, len': int)
    requires j < |inputs| == |outputs| && AllLong(inputs) && len < |b| == |b'| && Fits(t, inputs, outputs, |b|)
    requires b[..len] == ReplaceEach(t, inputs, outputs, j)
    requires HasRoom(b, len, inputs[j], outputs[j]) && Leaves(b, len, inputs[j], outputs[j], b', len')
    ensures 0 <= len' < |b| && b'[..len'] == ReplaceEach(t, inputs, outputs, j + 1)
  {
    hide ReplaceAll, HasOpenEnd;
  }

  // ------------------------------------------------------------------ results

  /** The text becomes its replacement, unless the search runs over the edge and that shows. */
  lemma ReplacedIff(b: string, len: nat, p: string, r: string, b': string, len': int)
    requires HasRoom(b, len, p, r) && Leaves(b, len, p, r, b', len')
    ensures (0 <= len' <= |b'| && b'[..len'] == ReplaceAll(b[..len], p, r))
      <==> !(Overruns(b, len, p, r) && (|r| != |p| || r[..|r| - 1] != p[..|p| - 1]))
  {
    if Overruns(b, len, p, r) {
      var _, done := OpenEndStays(b[..len], p, r);
      hide ReplaceAll, Overruns;
      if |r| == |p| {
        assert b'[..len'] == b'[..len' + 1][..len'] == done + r[..|r| - 1];
        assert (done + r[..|r| - 1])[|done|..] == r[..|r| - 1];
        assert (done + p[..|p| - 1])[|done|..] == p[..|p| - 1];
      }
    }
  }

  /** Two matches, the second ending behind the text: nothing is left, and less than nothing. */
  lemma OverrunLosesText(b: string)
    requires |b| > 9 && b[..9] == "@M32@@M32"
    ensures HasRoom(b, 9, "@M32@", "") && Overruns(b, 9, "@M32@", "")
    ensures ReplaceAll("@M32@@M32", "@M32@", "") == "@M32"
    ensures forall b', len' :: Leaves(b, 9, "@M32@", "", b', len') ==> len' == -1
  {
    var p, t := "@M32@", b[..9];
    assert t[..5] == p && t[5..] == "@M32" && p[..4] == "@M32";
    TooShort("@M32", p, "");
  }

  function ReplaceEach(t: string, inputs: seq<string>, outputs: seq<string>, j: nat): string
    requires j <= |inputs| == |outputs| && forall i :: 0 <= i < j ==> |inputs[i]| >= 1
  {
    if j == 0 then t
    else ReplaceAll(ReplaceEach(t, inputs, outputs, j - 1), inputs[j - 1], outputs[j - 1])
  }

  /** A text whose last character is in no input string never comes to an open end. */
  lemma {:induction false} PlainEndHasNoOpenEnd(t: string, inputs: seq<string>, outputs: seq<string>, j: nat)
    requires j < |inputs| == |outputs| && forall i :: 0 <= i < |inputs| ==> |inputs[i]| >= 2
    requires t != [] ==> forall i :: 0 <= i < |inputs| ==> t[|t| - 1] !in inputs[i]
    ensures var u := ReplaceEach(t, inputs, outputs, j);
      !HasOpenEnd(u, inputs[j]) && (t == [] ==> u == []) && (t != [] ==> u != [] && u[|u| - 1] == t[|t| - 1])
  {
    if j > 0 {
      PlainEndHasNoOpenEnd(t, inputs, outputs, j - 1);
      LastStays(ReplaceEach(t, inputs, outputs, j - 1), inputs[j - 1], outputs[j - 1]);
    }
    var u, p := ReplaceEach(t, inputs, outputs, j), inputs[j];
    if HasOpenEnd(u, p) {
      var _, _ := OpenEndStays(u, p, []);
    }
  }

  lemma {:induction false} LastStays(t: string, p: string, r: string)
    requires |p| >= 1 && (t != [] ==> t[|t| - 1] !in p)
    ensures var u := ReplaceAll(t, p, r);
      (t == [] ==> u == []) && (t != [] ==> u != [] && u[|u| - 1] == t[|t| - 1])
  {
    if t == [] {
    } else if StartsWith(t, p) {
      assert t[..|p|][|p| - 1] in p;
      LastStays(t[|p|..], p, r);
    } else {
      LastStays(t[1..], p, r);
    }
  }
}
