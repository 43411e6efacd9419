/**
 * The string primitives the plugin is built from: PHP's explode, implode, trim,
 * rtrim, strpos, str_contains, str_replace and strcmp, and the JavaScript
 * String methods split, join, trim, indexOf, replace and toLowerCase.
 * Strings are sequences of characters; the en-dash the SKUs use is one
 * character here (three bytes in PHP).
 */
module Strings {

  // ---------------------------------------------------------------------------
  // Whitespace and trimming
  // ---------------------------------------------------------------------------

  /** The characters PHP's trim() and rtrim() strip by default. */
  predicate IsPhpSpace(c: char) {
    c == ' ' || c == '\t' || c == '\n' || c == '\r' || c == '\0' || c == '\U{000B}'
  }

  /** The characters JavaScript's trim() strips (WhiteSpace and LineTerminator). */
  predicate IsJsSpace(c: char) {
    || c == ' ' || c == '\t' || c == '\n' || c == '\r' || c == '\U{000B}' || c == '\U{000C}'
    || c == '\U{00A0}' || c == '\U{1680}' || ('\U{2000}' <= c <= '\U{200A}')
    || c == '\U{2028}' || c == '\U{2029}' || c == '\U{202F}' || c == '\U{205F}'
    || c == '\U{3000}' || c == '\U{FEFF}'
  }

  /** Drops the longest prefix made of `ws` characters. */
  function TrimLeft(s: string, ws: char -> bool): (r: string)
    ensures |r| <= |s| && r == s[|s| - |r|..]
    ensures |r| > 0 ==> !ws(r[0])
    ensures forall k :: 0 <= k < |s| - |r| ==> ws(s[k])
    decreases |s|
  {
    if |s| > 0 && ws(s[0]) then TrimLeft(s[1..], ws) else s
  }

  /** Drops the longest suffix made of `ws` characters. */
  function TrimRight(s: string, ws: char -> bool): (r: string)
    ensures |r| <= |s| && r == s[..|r|]
    ensures |r| > 0 ==> !ws(r[|r| - 1])
    ensures forall k :: |r| <= k < |s| ==> ws(s[k])
    decreases |s|
  {
    if |s| > 0 && ws(s[|s| - 1]) then TrimRight(s[..|s| - 1], ws) else s
  }

  function Trim(s: string, ws: char -> bool): string {
    TrimRight(TrimLeft(s, ws), ws)
  }

  function PhpTrim(s: string): string { Trim(s, IsPhpSpace) }

  function PhpRTrim(s: string): string { TrimRight(s, IsPhpSpace) }

  function JsTrim(s: string): string { Trim(s, IsJsSpace) }

  /** A string that neither starts nor ends with a `ws` character is its own trim. */
  lemma TrimUntouched(s: string, ws: char -> bool)
    requires s == [] || (!ws(s[0]) && !ws(s[|s| - 1]))
    ensures Trim(s, ws) == s
  {
  }

  /** The trimmed string is a slice of its input, so it has no character the input lacks. */
  lemma TrimChars(s: string, ws: char -> bool)
    ensures forall c :: c in Trim(s, ws) ==> c in s
  {
    var l := TrimLeft(s, ws);
    var r := TrimRight(l, ws);
    forall c | c in r ensures c in s {
      var k :| 0 <= k < |r| && r[k] == c;
      assert l[k] == c;
      assert s[|s| - |l| + k] == c;
    }
  }

  /** Trimming twice trims nothing more. */
  lemma TrimIdempotent(s: string, ws: char -> bool)
    ensures Trim(Trim(s, ws), ws) == Trim(s, ws)
  {
    var t := Trim(s, ws);
    var l := TrimLeft(s, ws);
    if |t| > 0 {
      assert t[0] == l[0];
    }
  }

  lemma {:induction false} TrimLeftAgree(s: string, ws1: char -> bool, ws2: char -> bool)
    requires forall k :: 0 <= k < |s| ==> ws1(s[k]) == ws2(s[k])
    ensures TrimLeft(s, ws1) == TrimLeft(s, ws2)
    decreases |s|
  {
    if |s| > 0 && ws1(s[0]) {
      TrimLeftAgree(s[1..], ws1, ws2);
    }
  }

  lemma {:induction false} TrimRightAgree(s: string, ws1: char -> bool, ws2: char -> bool)
    requires forall k :: 0 <= k < |s| ==> ws1(s[k]) == ws2(s[k])
    ensures TrimRight(s, ws1) == TrimRight(s, ws2)
    decreases |s|
  {
    if |s| > 0 && ws1(s[|s| - 1]) {
      TrimRightAgree(s[..|s| - 1], ws1, ws2);
    }
  }

  /** Two trims give the same result on a string whose characters they classify alike. */
  lemma TrimAgree(s: string, ws1: char -> bool, ws2: char -> bool)
    requires forall k :: 0 <= k < |s| ==> ws1(s[k]) == ws2(s[k])
    ensures Trim(s, ws1) == Trim(s, ws2)
  {
    var l := TrimLeft(s, ws1);
    assert TrimLeft(s, ws2) == l by {
      TrimLeftAgree(s, ws1, ws2);
    }
    assert forall k :: 0 <= k < |l| ==> ws1(l[k]) == ws2(l[k]) by {
      forall k | 0 <= k < |l| ensures ws1(l[k]) == ws2(l[k]) {
        assert l[k] == s[|s| - |l| + k];
      }
    }
    TrimRightAgree(l, ws1, ws2);
  }

  // ---------------------------------------------------------------------------
  // Searching
  // ---------------------------------------------------------------------------

  /** `pat` occurs in `s` starting at index `i`. */
  predicate IsAt(s: string, pat: string, i: int) {
    0 <= i && i + |pat| <= |s| && s[i..i + |pat|] == pat
  }

  /** PHP str_contains / JavaScript includes. */
  predicate Contains(s: string, pat: string) {
    exists i :: 0 <= i <= |s| - |pat| && IsAt(s, pat, i)
  }

  /** Where the scan for `pat` from `from` stops: an index, or -1 (strpos / indexOf). */
  function IndexFrom(s: string, pat: string, from: nat): (r: int)
    requires |pat| > 0 && from <= |s|
    ensures r == -1 || (from <= r && r + |pat| <= |s|)
    decreases |s| - from
  {
    if from + |pat| > |s| then -1
    else if s[from..from + |pat|] == pat then from
    else IndexFrom(s, pat, from + 1)
  }

  /** IndexFrom finds the first occurrence at or after `from`, or -1 when there is none. */
  lemma {:induction false} IndexFromFirst(s: string, pat: string, from: nat)
    requires |pat| > 0 && from <= |s|
    ensures var r := IndexFrom(s, pat, from);
            && (r >= 0 ==> IsAt(s, pat, r))
            && (forall j :: from <= j && (r == -1 || j < r) ==> !IsAt(s, pat, j))
    decreases |s| - from
  {
    if from + |pat| <= |s| && s[from..from + |pat|] != pat {
      IndexFromFirst(s, pat, from + 1);
    }
  }

  /** An occurrence at j with none between `from` and j is the one IndexFrom finds. */
  lemma IndexFromAt(s: string, pat: string, from: nat, j: nat)
    requires |pat| > 0 && from <= j && IsAt(s, pat, j)
    requires forall q :: from <= q < j ==> !IsAt(s, pat, q)
    ensures IndexFrom(s, pat, from) == j
  {
    IndexFromFirst(s, pat, from);
  }

  /** For a one-character pattern, containment is plain membership. */
  lemma ContainsChar(s: string, c: char)
    ensures Contains(s, [c]) <==> c in s
  {
    if c in s {
      var i :| 0 <= i < |s| && s[i] == c;
      assert IsAt(s, [c], i);
    }
    if Contains(s, [c]) {
      var i :| 0 <= i <= |s| - 1 && IsAt(s, [c], i);
      assert s[i..i + 1][0] == s[i];
    }
  }

  /** A pattern found at `q` in the slice s[lo..hi] is found at lo + q in s. */
  lemma IsAtSlice(s: string, pat: string, lo: nat, hi: nat, q: int)
    requires lo <= hi <= |s|
    ensures IsAt(s[lo..hi], pat, q) ==> IsAt(s, pat, lo + q)
  {
    if IsAt(s[lo..hi], pat, q) {
      forall k | 0 <= k < |pat| ensures s[lo + q..lo + q + |pat|][k] == pat[k] {
        assert s[lo..hi][q..q + |pat|][k] == pat[k];
      }
      assert s[lo + q..lo + q + |pat|] == pat;
    }
  }

  /** A separator whose marker character p lacks does not occur in p. */
  lemma MarkedSepNotIn(p: string, sep: string, m: nat, q: int)
    requires m < |sep| && sep[m] !in p
    ensures !IsAt(p, sep, q)
  {
    if 0 <= q && q + |sep| <= |p| {
      assert p[q..q + |sep|][m] == p[q + m];
    }
  }

  /** Nor does it start inside p in p + sep + rest, the marker being unique in sep. */
  lemma MarkedSepNotInside(p: string, sep: string, rest: string, m: nat, q: int)
    requires m < |sep| && sep[m] !in p
    requires forall i :: 0 <= i < |sep| && i != m ==> sep[i] != sep[m]
    requires 0 <= q < |p|
    ensures !IsAt(p + sep + rest, sep, q)
  {
    var s := p + sep + rest;
    if q + m < |p| {
      assert s[q + m] == p[q + m];
    } else {
      assert s[q + m] == sep[q + m - |p|];
    }
    assert s[q..q + |sep|][m] == s[q + m];
  }

  // ---------------------------------------------------------------------------
  // explode / split and implode / join
  // ---------------------------------------------------------------------------

  /** PHP explode(sep, s) and JavaScript s.split(sep), for a non-empty separator. */
  function Split(s: string, sep: string): (parts: seq<string>)
    requires |sep| > 0
    ensures |parts| >= 1
    decreases |s|
  {
    var j := IndexFrom(s, sep, 0);
    if j < 0 then [s] else [s[..j]] + Split(s[j + |sep|..], sep)
  }

  /** PHP implode(sep, parts) and JavaScript parts.join(sep). */
  function Join(parts: seq<string>, sep: string): string {
    if |parts| == 0 then ""
    else if |parts| == 1 then parts[0]
    else parts[0] + sep + Join(parts[1..], sep)
  }

  lemma JoinCons(p: string, rest: seq<string>, sep: string)
    requires |rest| >= 1
    ensures Join([p] + rest, sep) == p + sep + Join(rest, sep)
  {
    assert ([p] + rest)[1..] == rest;
  }

  /** A string is its three consecutive slices. */
  lemma SliceThree(s: string, i: nat, k: nat)
    requires i <= k <= |s|
    ensures s == s[..i] + s[i..k] + s[k..]
  {
  }

  /** Joining the pieces of a split with the same separator gives the string back. */
  lemma {:induction false} JoinSplit(s: string, sep: string)
    requires |sep| > 0
    ensures Join(Split(s, sep), sep) == s
    decreases |s|
  {
    var j := IndexFrom(s, sep, 0);
    if j >= 0 {
      var k := j + |sep|;
      var tail := s[k..];
      var rest := Split(tail, sep);
      assert s[j..k] == sep by {
        IndexFromFirst(s, sep, 0);
      }
      assert Join(rest, sep) == tail by {
        JoinSplit(tail, sep);
      }
      assert Join(Split(s, sep), sep) == s[..j] + sep + Join(rest, sep) by {
        JoinCons(s[..j], rest, sep);
      }
      SliceThree(s, j, k);
    }
  }

  /** No piece of a split contains the separator. */
  lemma {:induction false} SplitNoSep(s: string, sep: string)
    requires |sep| > 0
    ensures forall k :: 0 <= k < |Split(s, sep)| ==> !Contains(Split(s, sep)[k], sep)
    decreases |s|
  {
    var parts := Split(s, sep);
    var j := IndexFrom(s, sep, 0);
    IndexFromFirst(s, sep, 0);
    var hi := if j < 0 then |s| else j;
    assert parts[0] == s[0..hi];
    forall q | 0 <= q <= |s[0..hi]| - |sep| ensures !IsAt(s[0..hi], sep, q) {
      IsAtSlice(s, sep, 0, hi, q);
    }
    if j >= 0 {
      var rest := Split(s[j + |sep|..], sep);
      SplitNoSep(s[j + |sep|..], sep);
      forall k | 1 <= k < |parts| ensures !Contains(parts[k], sep) {
        assert parts[k] == rest[k - 1];
      }
    }
  }

  /** No piece of a split on a character holds that character. */
  lemma SplitCharNoSep(s: string, c: char)
    ensures forall k :: 0 <= k < |Split(s, [c])| ==> c !in Split(s, [c])[k]
  {
    SplitNoSep(s, [c]);
    forall k | 0 <= k < |Split(s, [c])| ensures c !in Split(s, [c])[k] {
      ContainsChar(Split(s, [c])[k], c);
    }
  }

  /** Every character of every piece of a split is a character of the input. */
  lemma {:induction false} SplitChars(s: string, sep: string)
    requires |sep| > 0
    ensures forall k, c :: 0 <= k < |Split(s, sep)| && c in Split(s, sep)[k] ==> c in s
    decreases |s|
  {
    var parts := Split(s, sep);
    var j := IndexFrom(s, sep, 0);
    if j >= 0 {
      var tail := s[j + |sep|..];
      var rest := Split(tail, sep);
      SplitChars(tail, sep);
      forall k, c | 0 <= k < |parts| && c in parts[k] ensures c in s {
        if k == 0 {
          var i :| 0 <= i < |parts[0]| && parts[0][i] == c;
          assert s[i] == c;
        } else {
          assert parts[k] == rest[k - 1];
          assert c in tail;
          var i :| 0 <= i < |tail| && tail[i] == c;
          assert s[j + |sep| + i] == c;
        }
      }
    }
  }

  /** A piece without the separator's marker splits into itself. */
  lemma SplitNoMarker(p: string, sep: string, m: nat)
    requires m < |sep| && sep[m] !in p
    ensures Split(p, sep) == [p]
  {
    forall q | 0 <= q ensures !IsAt(p, sep, q) {
      MarkedSepNotIn(p, sep, m, q);
    }
    IndexFromFirst(p, sep, 0);
  }

  /** A string without the separator splits into itself. */
  lemma SplitWhole(s: string, sep: string)
    requires |sep| > 0 && !Contains(s, sep)
    ensures Split(s, sep) == [s]
  {
    IndexFromFirst(s, sep, 0);
  }

  /** Splitting p + sep + tail, the marker absent from p, gives p and then the split of tail. */
  lemma SplitAfterPiece(p: string, sep: string, tail: string, m: nat)
    requires m < |sep| && sep[m] !in p
    requires forall i :: 0 <= i < |sep| && i != m ==> sep[i] != sep[m]
    ensures Split(p + sep + tail, sep) == [p] + Split(tail, sep)
  {
    var joined := p + sep + tail;
    assert joined[|p|..|p| + |sep|] == sep;
    forall q | 0 <= q < |p| ensures !IsAt(joined, sep, q) {
      MarkedSepNotInside(p, sep, tail, m, q);
    }
    IndexFromAt(joined, sep, 0, |p|);
    assert joined[..|p|] == p;
    assert joined[|p| + |sep|..] == tail;
  }

  /**
   * Splitting a join gives the pieces back when the separator holds a marker
   * character, found once in it and in none of the pieces (a single '.' or '-',
   * or the '-' in the middle of " - ").
   */
  lemma {:induction false} SplitJoinMarked(parts: seq<string>, sep: string, m: nat)
    requires |parts| >= 1 && m < |sep|
    requires forall i :: 0 <= i < |sep| && i != m ==> sep[i] != sep[m]
    requires forall k :: 0 <= k < |parts| ==> sep[m] !in parts[k]
    ensures Split(Join(parts, sep), sep) == parts
    decreases |parts|
  {
    if |parts| == 1 {
      SplitNoMarker(parts[0], sep, m);
    } else {
      var rest := parts[1..];
      SplitJoinMarked(rest, sep, m);
      SplitAfterPiece(parts[0], sep, Join(rest, sep), m);
      assert parts == [parts[0]] + rest;
    }
  }

  /** A character that is not part of the separator survives in some piece. */
  lemma SplitKeepsChar(s: string, sep: string, c: char)
    requires |sep| > 0 && c in s && c !in sep
    ensures exists k :: 0 <= k < |Split(s, sep)| && c in Split(s, sep)[k]
  {
    JoinSplit(s, sep);
    JoinChars(Split(s, sep), sep, c);
  }

  /** A character of a join that is not in the separator comes from one of the pieces. */
  lemma {:induction false} JoinChars(parts: seq<string>, sep: string, c: char)
    requires c in Join(parts, sep) && c !in sep
    ensures exists k :: 0 <= k < |parts| && c in parts[k]
    decreases |parts|
  {
    if |parts| > 1 {
      if c !in parts[0] {
        JoinChars(parts[1..], sep, c);
        var k :| 0 <= k < |parts[1..]| && c in parts[1..][k];
        assert c in parts[k + 1];
      }
    }
  }

  // ---------------------------------------------------------------------------
  // Replacing and case folding
  // ---------------------------------------------------------------------------

  /** PHP str_replace(from, to, s) for one-character needles: every occurrence. */
  function ReplaceAll(s: string, from: char, to: char): (r: string)
    ensures |r| == |s|
    ensures forall i :: 0 <= i < |s| ==> r[i] == (if s[i] == from then to else s[i])
    decreases |s|
  {
    if s == [] then [] else [if s[0] == from then to else s[0]] + ReplaceAll(s[1..], from, to)
  }

  /** The first index of a character, or -1 (PHP strpos / JavaScript indexOf with a one-character needle). */
  function CharIndex(s: string, c: char): (r: int)
    ensures -1 <= r < |s|
    ensures r == -1 <==> c !in s
    ensures r >= 0 ==> s[r] == c && c !in s[..r]
  {
    if s == [] then -1
    else if s[0] == c then 0
    else
      var r := CharIndex(s[1..], c);
      if r < 0 then -1
      else
        assert s[..r + 1] == [s[0]] + s[1..][..r];
        r + 1
  }

  /** JavaScript s.replace(from, to) with a string pattern: the first occurrence only. */
  function ReplaceFirst(s: string, from: char, to: char): (r: string)
    ensures |r| == |s|
    ensures forall i :: 0 <= i < |s| ==>
      r[i] == (if s[i] == from && from !in s[..i] then to else s[i])
  {
    var i := CharIndex(s, from);
    if i < 0 then s
    else
      assert forall k :: i < k < |s| ==> from in s[..k] by {
        forall k | i < k < |s| ensures from in s[..k] {
          assert s[..k][i] == from;
        }
      }
      s[..i] + [to] + s[i + 1..]
  }

  /** With at most one occurrence, replacing the first one is replacing them all. */
  lemma ReplaceFirstIsAll(s: string, from: char, to: char)
    requires forall i, j :: 0 <= i < j < |s| && s[i] == from ==> s[j] != from
    ensures ReplaceFirst(s, from, to) == ReplaceAll(s, from, to)
  {
    forall i | 0 <= i < |s| && s[i] == from ensures from !in s[..i] {
    }
  }

  /** JavaScript toLowerCase on the ASCII letters. */
  function LowerChar(c: char): char {
    if 'A' <= c <= 'Z' then (c as int - 'A' as int + 'a' as int) as char else c
  }

  function ToLower(s: string): (r: string)
    ensures |r| == |s|
    ensures forall i :: 0 <= i < |s| ==> r[i] == LowerChar(s[i])
    decreases |s|
  {
    if s == [] then [] else [LowerChar(s[0])] + ToLower(s[1..])
  }

  /** Lower-casing leaves a string without capitals unchanged. */
  lemma ToLowerKeepsLower(s: string)
    requires forall i :: 0 <= i < |s| ==> !('A' <= s[i] <= 'Z')
    ensures ToLower(s) == s
  {
  }

  /** Lower-casing works character by character from the front. */
  lemma ToLowerCons(c: char, s: string)
    ensures ToLower([c] + s) == [LowerChar(c)] + ToLower(s)
  {
    assert ([c] + s)[1..] == s;
  }

  /** Whatever occurs in a string occurs, lower-cased, in its lower-cased form. */
  lemma ContainsToLower(s: string, pat: string)
    requires Contains(s, pat)
    ensures Contains(ToLower(s), ToLower(pat))
  {
    var i :| 0 <= i <= |s| - |pat| && IsAt(s, pat, i);
    assert ToLower(s)[i..i + |pat|] == ToLower(pat) by {
      forall k | 0 <= k < |pat| ensures ToLower(s)[i..i + |pat|][k] == ToLower(pat)[k] {
        assert s[i + k] == pat[k];
      }
    }
    assert IsAt(ToLower(s), ToLower(pat), i);
  }

  // ---------------------------------------------------------------------------
  // strcmp order
  // ---------------------------------------------------------------------------

  /** Lexicographic order on characters: PHP strcmp(a, b) <= 0. */
  predicate Leq(a: string, b: string)
    decreases |a|
  {
    |a| == 0 || (|b| > 0 && (a[0] < b[0] || (a[0] == b[0] && Leq(a[1..], b[1..]))))
  }

  /** PHP strcmp(a, b) < 0, and PHP's `<` on two non-numeric strings. */
  predicate Less(a: string, b: string) {
    !Leq(b, a)
  }

  lemma {:induction false} LeqReflexive(a: string)
    ensures Leq(a, a)
    decreases |a|
  {
    if |a| > 0 {
      LeqReflexive(a[1..]);
    }
  }

  lemma {:induction false} LeqTotal(a: string, b: string)
    ensures Leq(a, b) || Leq(b, a)
    decreases |a|
  {
    if |a| > 0 && |b| > 0 && a[0] == b[0] {
      LeqTotal(a[1..], b[1..]);
    }
  }

  lemma {:induction false} LeqTransitive(a: string, b: string, c: string)
    requires Leq(a, b) && Leq(b, c)
    ensures Leq(a, c)
    decreases |a|
  {
    if |a| > 0 && a[0] == b[0] && b[0] == c[0] {
      LeqTransitive(a[1..], b[1..], c[1..]);
    }
  }

  lemma {:induction false} LeqAntisymmetric(a: string, b: string)
    requires Leq(a, b) && Leq(b, a)
    ensures a == b
    decreases |a|
  {
    if |a| > 0 {
      LeqAntisymmetric(a[1..], b[1..]);
      assert a == [a[0]] + a[1..] && b == [b[0]] + b[1..];
    }
  }

  // ---------------------------------------------------------------------------
  // Integers as decimal strings
  // ---------------------------------------------------------------------------

  function DigitChar(d: nat): (c: char)
    requires d < 10
    ensures '0' <= c <= '9'
  {
    ('0' as int + d) as char
  }

  /** PHP's string conversion of a non-negative integer. */
  function NatToString(n: nat): (r: string)
    ensures |r| >= 1
    ensures forall k :: 0 <= k < |r| ==> '0' <= r[k] <= '9'
  {
    if n < 10 then [DigitChar(n)] else NatToString(n / 10) + [DigitChar(n % 10)]
  }

  // ---------------------------------------------------------------------------
  // array_reverse / Array.prototype.reverse
  // ---------------------------------------------------------------------------

  function Reverse<T>(s: seq<T>): (r: seq<T>)
    ensures |r| == |s|
    ensures forall i :: 0 <= i < |s| ==> r[i] == s[|s| - 1 - i]
  {
    if s == [] then [] else Reverse(s[1..]) + [s[0]]
  }

  lemma ReverseReverse<T>(s: seq<T>)
    ensures Reverse(Reverse(s)) == s
  {
  }
}
