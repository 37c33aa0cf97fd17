/** `strings.TrimSpace` on UTF-8: white space is that of Unicode, and bytes that are not valid UTF-8 are
    not white space. */
module Trimming {
  import opened Bytes

  /** The encoding of one white space code point. */
  predicate IsSpace(r: Str) {
    || (|r| == 1 && (r[0] == ' ' || 9 <= r[0] as int <= 13))
    || (|r| == 2 && r[0] as int == 0xC2 && (r[1] as int == 0x85 || r[1] as int == 0xA0))
    || (|r| == 3 && IsWideSpace(r[0] as int, r[1] as int, r[2] as int))
  }

  /** U+1680, U+2000 to U+200A, U+2028, U+2029, U+202F, U+205F and U+3000. */
  predicate IsWideSpace(a: int, b: int, c: int) {
    || (a == 0xE1 && b == 0x9A && c == 0x80)
    || (a == 0xE2 && b == 0x80 && (0x80 <= c <= 0x8A || c == 0xA8 || c == 0xA9 || c == 0xAF))
    || (a == 0xE2 && b == 0x81 && c == 0x9F)
    || (a == 0xE3 && b == 0x80 && c == 0x80)
  }

  /** The UTF-8 encoding of a code point below U+10000. */
  function Utf8(c: nat): Str
    requires c < 0x10000
  {
    if c < 0x80 then [c as char]
    else if c < 0x800 then [(0xC0 + c / 0x40) as char, (0x80 + c % 0x40) as char]
    else [(0xE0 + c / 0x1000) as char, (0x80 + c / 0x40 % 0x40) as char, (0x80 + c % 0x40) as char]
  }

  /** The code points with the property White_Space. */
  predicate IsWhiteSpace(c: nat) {
    || 0x9 <= c <= 0xD || c == 0x20 || c == 0x85 || c == 0xA0 || c == 0x1680 || 0x2000 <= c <= 0x200A
    || c == 0x2028 || c == 0x2029 || c == 0x202F || c == 0x205F || c == 0x3000
  }

  lemma SpaceDecodes(r: Str) returns (c: nat)
    requires IsSpace(r)
    ensures c < 0x10000 && IsWhiteSpace(c) && Utf8(c) == r
  {
    c := if |r| == 1 then r[0] as int
         else if |r| == 2 then (r[0] as int - 0xC0) * 0x40 + (r[1] as int - 0x80)
         else (r[0] as int - 0xE0) * 0x1000 + (r[1] as int - 0x80) * 0x40 + (r[2] as int - 0x80);
  }

  lemma WhiteSpaceIsSpace(c: nat)
    requires c < 0x10000 && IsWhiteSpace(c)
    ensures IsSpace(Utf8(c))
  {
    var r := Utf8(c);
    if c >= 0x800 {
      assert r[0] as int == 0xE0 + c / 0x1000;
      assert r[1] as int == 0x80 + c / 0x40 % 0x40;
      assert r[2] as int == 0x80 + c % 0x40;
    }
  }

  /** The strings trimmed away are the encodings of white space. */
  lemma SpacesAreWhiteSpace(r: Str)
    ensures IsSpace(r) <==> exists c: nat :: c < 0x10000 && IsWhiteSpace(c) && Utf8(c) == r
  {
    if IsSpace(r) {
      var c := SpaceDecodes(r);
    }
    if c: nat :| c < 0x10000 && IsWhiteSpace(c) && Utf8(c) == r {
      WhiteSpaceIsSpace(c);
    }
  }

  /** The length of the prefix, of at most n bytes, that is white space, or 0. */
  function SpacePrefix(s: Str, n: nat): (k: nat)
    requires n <= |s|
    ensures k <= n
  {
    if n == 0 then 0 else if IsSpace(s[..n]) then n else SpacePrefix(s, n - 1)
  }

  function SpaceSuffix(s: Str, n: nat): (k: nat)
    requires n <= |s|
    ensures k <= n
  {
    if n == 0 then 0 else if IsSpace(s[|s| - n..]) then n else SpaceSuffix(s, n - 1)
  }

  /** The length of the white space code point that the string begins with, or 0. */
  function Leading(s: Str): (k: nat)
    ensures k <= |s|
  {
    SpacePrefix(s, |s|)
  }

  function Trailing(s: Str): (k: nat)
    ensures k <= |s|
  {
    SpaceSuffix(s, |s|)
  }

  function TrimLeft(s: Str): Str {
    if Leading(s) > 0 then TrimLeft(s[Leading(s)..]) else s
  }

  function TrimRight(s: Str): Str {
    if Trailing(s) > 0 then TrimRight(s[..|s| - Trailing(s)]) else s
  }

  function Trim(s: Str): Str {
    TrimRight(TrimLeft(s))
  }

  function Flatten(parts: seq<Str>): Str {
    if parts == [] then [] else parts[0] + Flatten(parts[1..])
  }

  ghost predicate AllSpace(parts: seq<Str>) {
    forall p :: p in parts ==> IsSpace(p)
  }

  /** Nothing but white space code points, one after the other. */
  ghost predicate Spaces(s: Str) {
    exists parts :: AllSpace(parts) && Flatten(parts) == s
  }

  ghost predicate StartsClean(s: Str) {
    forall k :: 0 < k <= |s| ==> !IsSpace(s[..k])
  }

  ghost predicate EndsClean(s: Str) {
    forall i :: 0 <= i < |s| ==> !IsSpace(s[i..])
  }

  ghost predicate Trimmed(s: Str) {
    StartsClean(s) && EndsClean(s)
  }

  // ----- where code points begin and end -----

  /** A byte that continues the encoding of a code point. */
  predicate IsContinuation(c: Byte) {
    0x80 <= c as int < 0xC0
  }

  /** The first byte of a white space code point tells its length; the others continue it. */
  lemma SpaceBytes(r: Str)
    requires IsSpace(r)
    ensures r != [] && !IsContinuation(r[0])
    ensures forall i :: 0 < i < |r| ==> IsContinuation(r[i])
    ensures ',' !in r && '=' !in r
    ensures forall k :: 0 <= k < |r| ==> !IsSpace(r[..k])
  {
  }

  lemma NoSpaceInside(r: Str, k: nat)
    requires IsSpace(r) && 0 < k <= |r|
    ensures !IsSpace(r[k..])
  {
    SpaceBytes(r);
    if IsSpace(r[k..]) {
      SpaceBytes(r[k..]);
    }
  }

  lemma {:induction false} PrefixIs(s: Str, n: nat)
    requires n <= |s|
    ensures var k := SpacePrefix(s, n);
            if k == 0 then forall i :: 0 < i <= n ==> !IsSpace(s[..i]) else IsSpace(s[..k])
  {
    if n > 0 && !IsSpace(s[..n]) {
      PrefixIs(s, n - 1);
    }
  }

  lemma {:induction false} SuffixIs(s: Str, n: nat)
    requires n <= |s|
    ensures var k := SpaceSuffix(s, n);
            if k == 0 then forall i :: |s| - n <= i < |s| ==> !IsSpace(s[i..]) else IsSpace(s[|s| - k..])
  {
    if n > 0 && !IsSpace(s[|s| - n..]) {
      SuffixIs(s, n - 1);
    }
  }

  lemma NoLongerPrefix(s: Str, k: nat, n: nat)
    requires 0 < k < n <= |s| && IsSpace(s[..k])
    ensures !IsSpace(s[..n])
  {
    assert s[..n][..k] == s[..k];
    if IsSpace(s[..n]) {
      SpaceBytes(s[..n]);
    }
  }

  lemma NoShorterPrefix(s: Str, k: nat, n: nat)
    requires 0 < k < n <= |s| && IsSpace(s[..n])
    ensures !IsSpace(s[..k])
  {
    assert s[..n][..k] == s[..k];
    SpaceBytes(s[..n]);
  }

  /** A string begins with at most one white space code point. */
  lemma LeadingIs(s: Str, k: nat)
    requires 0 < k <= |s|
    ensures IsSpace(s[..k]) <==> Leading(s) == k
  {
    PrefixIs(s, |s|);
    if IsSpace(s[..k]) {
      forall n | k < n <= |s| ensures !IsSpace(s[..n]) {
        NoLongerPrefix(s, k, n);
      }
      forall n | 0 < n < k ensures !IsSpace(s[..n]) {
        NoShorterPrefix(s, n, k);
      }
    }
  }

  lemma NoShorterSuffix(s: Str, k: nat, n: nat)
    requires 0 < k < n <= |s| && IsSpace(s[|s| - n..])
    ensures !IsSpace(s[|s| - k..])
  {
    assert s[|s| - n..][n - k..] == s[|s| - k..];
    NoSpaceInside(s[|s| - n..], n - k);
  }

  lemma TrailingIs(s: Str, k: nat)
    requires 0 < k <= |s|
    ensures IsSpace(s[|s| - k..]) <==> Trailing(s) == k
  {
    SuffixIs(s, |s|);
    var n := Trailing(s);
    if k < n {
      NoShorterSuffix(s, k, n);
    } else if IsSpace(s[|s| - k..]) {
      forall i | |s| - k < i < |s| ensures !IsSpace(s[i..]) {
        NoShorterSuffix(s, |s| - i, k);
      }
    }
  }

  lemma NoLeading(s: Str)
    ensures Leading(s) == 0 <==> StartsClean(s)
  {
    PrefixIs(s, |s|);
  }

  lemma NoTrailing(s: Str)
    ensures Trailing(s) == 0 <==> EndsClean(s)
  {
    SuffixIs(s, |s|);
  }

  /** White space does not arise across the end of a string before what begins a code point. */
  lemma StaysClean(a: Str, b: Str)
    requires a != [] && StartsClean(a) && (b != [] ==> !IsContinuation(b[0]))
    ensures StartsClean(a + b)
  {
    forall k | 0 < k <= |a + b| ensures !IsSpace((a + b)[..k]) {
      if k <= |a| {
        assert (a + b)[..k] == a[..k];
      } else if IsSpace((a + b)[..k]) {
        assert (a + b)[..k][|a|] == b[0];
        SpaceBytes((a + b)[..k]);
      }
    }
  }

  /** No white space that ends a string begins within white space before it. */
  lemma EndsCleanAfter(p: Str, v: Str)
    requires IsSpace(p) && v != [] && EndsClean(v)
    ensures EndsClean(p + v)
  {
    var t := p + v;
    forall i | 0 <= i < |t| ensures !IsSpace(t[i..]) {
      if i >= |p| {
        assert t[i..] == v[i - |p|..];
      } else if IsSpace(t[i..]) {
        SpaceBytes(p);
        if i > 0 {
          assert t[i..][0] == p[i];
          SpaceBytes(t[i..]);
        } else {
          assert t[0..] == t && t[..|p|] == p;
          SpaceBytes(t);
        }
      }
    }
  }

  // ----- strings of white space -----

  lemma {:induction false} FlattenAppend(a: seq<Str>, b: seq<Str>)
    ensures Flatten(a + b) == Flatten(a) + Flatten(b)
  {
    if a == [] {
      assert a + b == b;
    } else {
      assert (a + b)[1..] == a[1..] + b;
      FlattenAppend(a[1..], b);
    }
  }

  lemma OnePart(p: Str)
    ensures Flatten([p]) == p
  {
    assert Flatten([p]) == p + Flatten([]);
  }

  lemma SpacesAppend(a: Str, b: Str)
    requires Spaces(a) && Spaces(b)
    ensures Spaces(a + b)
  {
    var parts :| AllSpace(parts) && Flatten(parts) == a;
    var more :| AllSpace(more) && Flatten(more) == b;
    FlattenAppend(parts, more);
    assert AllSpace(parts + more);
  }

  lemma OneSpace(p: Str)
    requires IsSpace(p)
    ensures Spaces(p)
  {
    OnePart(p);
    assert AllSpace([p]);
  }

  lemma NoSpaces()
    ensures Spaces([])
  {
    assert AllSpace([]) && Flatten([]) == [];
  }

  lemma {:induction false} PartsSeparateNothing(parts: seq<Str>)
    requires AllSpace(parts)
    ensures ',' !in Flatten(parts) && '=' !in Flatten(parts)
    ensures Flatten(parts) != [] ==> !IsContinuation(Flatten(parts)[0])
  {
    if parts != [] {
      SpaceBytes(parts[0]);
      PartsSeparateNothing(parts[1..]);
    }
  }

  lemma SpacesSeparateNothing(s: Str)
    requires Spaces(s)
    ensures ',' !in s && '=' !in s
    ensures s != [] ==> !IsContinuation(s[0])
  {
    var parts :| AllSpace(parts) && Flatten(parts) == s;
    PartsSeparateNothing(parts);
  }

  /** A string without white space at its front keeps that before white space. */
  lemma CleanBeforeSpaces(m: Str, r: Str)
    requires m != [] && StartsClean(m) && Spaces(r)
    ensures StartsClean(m + r)
  {
    SpacesSeparateNothing(r);
    StaysClean(m, r);
  }

  lemma {:induction false} CleanAfterParts(parts: seq<Str>, v: Str)
    requires AllSpace(parts) && v != [] && EndsClean(v)
    ensures EndsClean(Flatten(parts) + v)
  {
    if parts == [] {
      assert Flatten(parts) + v == v;
    } else {
      CleanAfterParts(parts[1..], v);
      EndsCleanAfter(parts[0], Flatten(parts[1..]) + v);
      assert Flatten(parts) + v == parts[0] + (Flatten(parts[1..]) + v);
    }
  }

  /** A string without white space at its end keeps that after white space. */
  lemma CleanAfterSpaces(c: Str, v: Str)
    requires Spaces(c) && v != [] && EndsClean(v)
    ensures EndsClean(c + v)
  {
    var parts :| AllSpace(parts) && Flatten(parts) == c;
    CleanAfterParts(parts, v);
  }

  // ----- trimming -----

  lemma {:induction false} TrimLeftParts(parts: seq<Str>, t: Str)
    requires AllSpace(parts) && StartsClean(t)
    ensures TrimLeft(Flatten(parts) + t) == t
  {
    var s := Flatten(parts) + t;
    if parts == [] {
      assert s == t;
      NoLeading(t);
    } else {
      var p, rest := parts[0], Flatten(parts[1..]) + t;
      SpaceBytes(p);
      assert s == p + rest;
      assert s[..|p|] == p && s[|p|..] == rest;
      LeadingIs(s, |p|);
      TrimLeftParts(parts[1..], t);
    }
  }

  lemma {:induction false} TrimRightParts(t: Str, parts: seq<Str>)
    requires AllSpace(parts) && EndsClean(t)
    ensures TrimRight(t + Flatten(parts)) == t
  {
    var s := t + Flatten(parts);
    if parts == [] {
      assert s == t;
      NoTrailing(t);
    } else {
      var n := |parts| - 1;
      var p, front := parts[n], t + Flatten(parts[..n]);
      SpaceBytes(p);
      OnePart(p);
      FlattenAppend(parts[..n], [p]);
      assert parts == parts[..n] + [p];
      assert s == front + p;
      assert s[|s| - |p|..] == p && s[..|s| - |p|] == front;
      TrailingIs(s, |p|);
      TrimRightParts(t, parts[..n]);
    }
  }

  /** Trimming removes the white space around a trimmed core. */
  lemma TrimUnique(l: Str, m: Str, r: Str)
    requires Spaces(l) && Trimmed(m) && Spaces(r)
    ensures Trim(l + m + r) == m
  {
    assert l + m + r == l + (m + r);
    if m == [] {
      SpacesAppend(l, r);
      var parts :| AllSpace(parts) && Flatten(parts) == l + r;
      TrimLeftParts(parts, []);
      assert l + m + r == Flatten(parts) + [];
      TrimRightParts([], []);
    } else {
      CleanBeforeSpaces(m, r);
      var before :| AllSpace(before) && Flatten(before) == l;
      var after :| AllSpace(after) && Flatten(after) == r;
      TrimLeftParts(before, m + r);
      TrimRightParts(m, after);
    }
  }

  /** Every string is white space around its trimmed core. */
  lemma TrimCore(s: Str) returns (l: Str, r: Str)
    ensures Spaces(l) && Spaces(r) && Trimmed(Trim(s)) && s == l + Trim(s) + r
  {
    l := TrimLeftCore(s);
    r := TrimRightCore(TrimLeft(s));
  }

  lemma {:induction false} TrimLeftCore(s: Str) returns (l: Str)
    ensures Spaces(l) && StartsClean(TrimLeft(s)) && s == l + TrimLeft(s)
    decreases |s|
  {
    var n := Leading(s);
    if n > 0 {
      LeadingIs(s, n);
      l := TrimLeftCore(s[n..]);
      OneSpace(s[..n]);
      SpacesAppend(s[..n], l);
      l := s[..n] + l;
    } else {
      NoLeading(s);
      NoSpaces();
      l := [];
    }
  }

  lemma {:induction false} TrimRightCore(s: Str) returns (r: Str)
    requires StartsClean(s)
    ensures Spaces(r) && Trimmed(TrimRight(s)) && s == TrimRight(s) + r
    decreases |s|
  {
    var n := Trailing(s);
    if n > 0 {
      TrailingIs(s, n);
      var front, last := s[..|s| - n], s[|s| - n..];
      assert forall k :: 0 < k <= |front| ==> front[..k] == s[..k];
      r := TrimRightCore(front);
      OneSpace(last);
      SpacesAppend(r, last);
      r := r + last;
    } else {
      NoTrailing(s);
      NoSpaces();
      r := [];
    }
  }

  lemma TrimIgnoresSpaceBehind(s: Str, r: Str)
    requires Spaces(r)
    ensures Trim(s + r) == Trim(s)
  {
    var l', r' := TrimCore(s);
    TrimMoreBehind(l', Trim(s), r', r);
  }

  lemma TrimMoreBehind(l: Str, core: Str, r: Str, more: Str)
    requires Spaces(l) && Trimmed(core) && Spaces(r) && Spaces(more)
    ensures Trim((l + core + r) + more) == core
  {
    SpacesAppend(r, more);
    TrimUnique(l, core, r + more);
    assert (l + core + r) + more == l + core + (r + more);
  }

  lemma TrimIgnoresSpaceBefore(l: Str, s: Str)
    requires Spaces(l)
    ensures Trim(l + s) == Trim(s)
  {
    var l', r' := TrimCore(s);
    TrimMoreBefore(l, l', Trim(s), r');
  }

  lemma TrimMoreBefore(more: Str, l: Str, core: Str, r: Str)
    requires Spaces(more) && Spaces(l) && Trimmed(core) && Spaces(r)
    ensures Trim(more + (l + core + r)) == core
  {
    SpacesAppend(more, l);
    TrimUnique(more + l, core, r);
    assert more + (l + core + r) == (more + l) + core + r;
  }
}
