/**
 * The parts of Rust's `str` and slice API that the scraper and the migration
 * runner use, with Rust's semantics: `split` and `replace` scan for the
 * leftmost non-overlapping match, `trim` removes Unicode white space at both
 * ends, `usize::from_str` accepts an optional `+` and decimal digits.
 * Strings are sequences of `char`; a character stands for one byte where the
 * source indexes by byte.
 */
module Strings {
  import opened Wrappers

  /** Rust's `char::is_whitespace`: the Unicode `White_Space` property. */
  predicate IsWhitespace(c: char) {
    || ('\t' <= c <= '\r')
    || c == ' '
    || c == '\U{0085}'
    || c == '\U{00A0}'
    || c == '\U{1680}'
    || ('\U{2000}' <= c <= '\U{200A}')
    || c == '\U{2028}'
    || c == '\U{2029}'
    || c == '\U{202F}'
    || c == '\U{205F}'
    || c == '\U{3000}'
  }

  /** `str::trim_start`: drops the leading white space and nothing else. */
  function TrimStart(s: string): (r: string)
    ensures |r| <= |s| && r == s[|s| - |r|..]
    ensures r == [] || !IsWhitespace(r[0])
    ensures forall i :: 0 <= i < |s| - |r| ==> IsWhitespace(s[i])
    decreases |s|
  {
    if s != [] && IsWhitespace(s[0]) then TrimStart(s[1..]) else s
  }

  /** `str::trim_end`: drops the trailing white space and nothing else. */
  function TrimEnd(s: string): (r: string)
    ensures |r| <= |s| && r == s[..|r|]
    ensures r == [] || !IsWhitespace(r[|r| - 1])
    ensures forall i :: |r| <= i < |s| ==> IsWhitespace(s[i])
    decreases |s|
  {
    if s != [] && IsWhitespace(s[|s| - 1]) then TrimEnd(s[..|s| - 1]) else s
  }

  /** `str::trim`. */
  function Trim(s: string): (r: string)
    ensures r == [] || (!IsWhitespace(r[0]) && !IsWhitespace(r[|r| - 1]))
  {
    TrimEnd(TrimStart(s))
  }

  /** A string with no white space at either end is its own trim. */
  lemma TrimUnchanged(s: string)
    requires s == [] || (!IsWhitespace(s[0]) && !IsWhitespace(s[|s| - 1]))
    ensures Trim(s) == s
  {
  }

  lemma TrimIdempotent(s: string)
    ensures Trim(Trim(s)) == Trim(s)
  {
    TrimUnchanged(Trim(s));
  }

  /** Lower-casing of one character (ASCII letters only). */
  function LowerChar(c: char): char {
    if 'A' <= c <= 'Z' then (c as int + 32) as char else c
  }

  /** `str::to_lowercase`, restricted to ASCII letters. */
  function ToLower(s: string): (r: string)
    ensures |r| == |s|
    ensures forall i :: 0 <= i < |s| ==> r[i] == LowerChar(s[i])
  {
    seq(|s|, i requires 0 <= i < |s| => LowerChar(s[i]))
  }

  lemma ToLowerIdempotent(s: string)
    ensures ToLower(ToLower(s)) == ToLower(s)
  {
  }

  predicate StartsWith(s: string, prefix: string) {
    |prefix| <= |s| && s[..|prefix|] == prefix
  }

  /** `str::contains`: `sub` occurs at some position of `s`. */
  predicate Contains(s: string, sub: string)
    decreases |s|
  {
    StartsWith(s, sub) || (s != [] && Contains(s[1..], sub))
  }

  /** No occurrence of `sep` starts before position `k` of `s`. */
  ghost predicate NoMatchBefore(s: string, sep: string, k: nat) {
    forall i :: 0 <= i < k && i <= |s| ==> !StartsWith(s[i..], sep)
  }

  /**
   * `str::split` with a non-empty pattern: the pieces between the leftmost
   * non-overlapping occurrences of `sep`. There is always at least one piece.
   */
  function Split(s: string, sep: string): (parts: seq<string>)
    requires |sep| > 0
    ensures |parts| >= 1
    decreases |s|
  {
    if s == [] then [[]]
    else if StartsWith(s, sep) then [[]] + Split(s[|sep|..], sep)
    else
      var rest := Split(s[1..], sep);
      [[s[0]] + rest[0]] + rest[1..]
  }

  /** `[String]::join(sep)`. */
  function Join(parts: seq<string>, sep: string): string {
    if |parts| == 0 then []
    else if |parts| == 1 then parts[0]
    else parts[0] + sep + Join(parts[1..], sep)
  }

  /** `str::replace(from, to)` with a non-empty `from`. */
  function Replace(s: string, from: string, to: string): string
    requires |from| > 0
    decreases |s|
  {
    if s == [] then []
    else if StartsWith(s, from) then to + Replace(s[|from|..], from, to)
    else [s[0]] + Replace(s[1..], from, to)
  }

  /** `replace` leaves a string without any occurrence of `from` as it is. */
  lemma {:induction false} ReplaceAbsent(s: string, from: string, to: string)
    requires |from| > 0 && NoMatchBefore(s, from, |s|)
    ensures Replace(s, from, to) == s
    decreases |s|
  {
    if s != [] {
      assert !StartsWith(s[0..], from);
      assert s[0..] == s;
      forall i | 0 <= i < |s| - 1 && i <= |s[1..]|
        ensures !StartsWith(s[1..][i..], from)
      {
        assert s[1..][i..] == s[i + 1..];
      }
      ReplaceAbsent(s[1..], from, to);
      assert [s[0]] + s[1..] == s;
    }
  }

  /** Removing every `from` from `from + s` when `s` has none leaves `s`. */
  lemma ReplacePrefixAbsent(s: string, from: string)
    requires |from| > 0 && NoMatchBefore(s, from, |s|)
    ensures Replace(from + s, from, []) == s
  {
    var t := from + s;
    assert StartsWith(t, from);
    assert t[|from|..] == s;
    ReplaceAbsent(s, from, []);
  }

  /** Removing every `from` from `x + from`, when no `from` starts inside `x`, leaves `x`. */
  lemma {:induction false} ReplaceSuffix(x: string, from: string)
    requires |from| > 0 && NoMatchBefore(x + from, from, |x|)
    ensures Replace(x + from, from, []) == x
    decreases |x|
  {
    var s := x + from;
    if x == [] {
      assert s == [] + from;
      ReplacePrefixAbsent([], from);
    } else {
      NoMatchShift(s, from, |x|);
      assert s[1..] == x[1..] + from;
      ReplaceSuffix(x[1..], from);
      assert [x[0]] + x[1..] == x;
    }
  }

  /** The concatenation of a sequence of sequences (`Iterator::flatten`). */
  function Flatten<T>(xss: seq<seq<T>>): seq<T> {
    if xss == [] then [] else xss[0] + Flatten(xss[1..])
  }

  function Reverse<T>(xs: seq<T>): (r: seq<T>)
    ensures |r| == |xs|
    ensures forall i :: 0 <= i < |xs| ==> r[i] == xs[|xs| - 1 - i]
  {
    if xs == [] then [] else Reverse(xs[1..]) + [xs[0]]
  }

  lemma JoinCons(head: string, tail: seq<string>, sep: string)
    requires tail != []
    ensures Join([head] + tail, sep) == head + sep + Join(tail, sep)
  {
    assert ([head] + tail)[1..] == tail;
  }

  lemma FlattenAppend<T>(xss: seq<seq<T>>, yss: seq<seq<T>>)
    ensures Flatten(xss + yss) == Flatten(xss) + Flatten(yss)
  {
    if xss != [] {
      assert (xss + yss)[0] == xss[0];
      assert (xss + yss)[1..] == xss[1..] + yss;
      FlattenAppend(xss[1..], yss);
    } else {
      assert xss + yss == yss;
    }
  }

  /** Joining the pieces of a split with the same separator gives the input back. */
  lemma {:induction false} SplitJoin(s: string, sep: string)
    requires |sep| > 0
    ensures Join(Split(s, sep), sep) == s
    decreases |s|
  {
    SplitReplace(s, sep, sep);
    ReplaceSelf(s, sep);
  }

  lemma {:induction false} ReplaceSelf(s: string, sep: string)
    requires |sep| > 0
    ensures Replace(s, sep, sep) == s
    decreases |s|
  {
    if s == [] {
    } else if StartsWith(s, sep) {
      ReplaceSelf(s[|sep|..], sep);
      assert s == sep + s[|sep|..];
    } else {
      ReplaceSelf(s[1..], sep);
      assert s == [s[0]] + s[1..];
    }
  }

  /**
   * Splitting on `sep` and joining with `to` is replacing every occurrence of
   * `sep` by `to`.
   */
  lemma {:induction false} SplitReplace(s: string, sep: string, to: string)
    requires |sep| > 0
    ensures Join(Split(s, sep), to) == Replace(s, sep, to)
    decreases |s|
  {
    if s == [] {
    } else if StartsWith(s, sep) {
      var tail := s[|sep|..];
      assert Split(s, sep) == [[]] + Split(tail, sep);
      assert Replace(s, sep, to) == to + Replace(tail, sep, to);
      SplitReplace(tail, sep, to);
      JoinCons([], Split(tail, sep), to);
      assert [] + to + Join(Split(tail, sep), to) == to + Join(Split(tail, sep), to);
    } else {
      var rest := Split(s[1..], sep);
      assert Split(s, sep) == [[s[0]] + rest[0]] + rest[1..];
      assert Replace(s, sep, to) == [s[0]] + Replace(s[1..], sep, to);
      SplitReplace(s[1..], sep, to);
      JoinExtendHead(s[0], rest, to);
    }
  }

  /** Prepending a character to the first piece prepends it to the joined text. */
  lemma JoinExtendHead(c: char, parts: seq<string>, sep: string)
    requires parts != []
    ensures Join([[c] + parts[0]] + parts[1..], sep) == [c] + Join(parts, sep)
  {
    if |parts| > 1 {
      JoinCons([c] + parts[0], parts[1..], sep);
      JoinCons(parts[0], parts[1..], sep);
      assert parts == [parts[0]] + parts[1..];
    }
  }

  /** Without an occurrence of the separator, splitting yields the whole input. */
  lemma {:induction false} SplitNoMatch(s: string, sep: string)
    requires |sep| > 0 && NoMatchBefore(s, sep, |s|)
    ensures Split(s, sep) == [s]
    decreases |s|
  {
    if s != [] {
      assert !StartsWith(s[0..], sep);
      assert s[0..] == s;
      NoMatchShift(s, sep, |s|);
      SplitNoMatch(s[1..], sep);
      assert [s[0]] + s[1..] == s;
    }
  }

  /** No match in the first `k` positions leaves none in the first `k - 1` positions of the tail. */
  lemma NoMatchShift(s: string, sep: string, k: nat)
    requires 0 < k <= |s| && NoMatchBefore(s, sep, k)
    ensures !StartsWith(s, sep)
    ensures NoMatchBefore(s[1..], sep, k - 1)
  {
    assert s[0..] == s;
    forall i | 0 <= i < k - 1
      ensures !StartsWith(s[1..][i..], sep)
    {
      assert s[1..][i..] == s[i + 1..];
    }
  }

  /**
   * When the first occurrence of the separator starts at `k`, the first piece is
   * the text before it and the rest is the split of the text after it.
   */
  lemma {:induction false} SplitAt(s: string, sep: string, k: nat)
    requires |sep| > 0 && k + |sep| <= |s| && s[k..k + |sep|] == sep
    requires NoMatchBefore(s, sep, k)
    ensures Split(s, sep) == [s[..k]] + Split(s[k + |sep|..], sep)
    decreases k
  {
    if k == 0 {
      assert StartsWith(s, sep);
    } else {
      NoMatchShift(s, sep, k);
      MatchShift(s, sep, k);
      SplitAt(s[1..], sep, k - 1);
      SplitAtStep(s, sep, k);
    }
  }

  /** An occurrence at `k > 0` is an occurrence at `k - 1` of the tail. */
  lemma MatchShift(s: string, sep: string, k: nat)
    requires 0 < k && k + |sep| <= |s| && s[k..k + |sep|] == sep
    ensures s[1..][k - 1..k - 1 + |sep|] == sep
  {
    assert s[1..][k - 1..k - 1 + |sep|] == s[k..k + |sep|];
  }

  /** One step of `SplitAt`: the first character joins the first piece of the tail. */
  lemma SplitAtStep(s: string, sep: string, k: nat)
    requires |sep| > 0 && 0 < k && k + |sep| <= |s| && !StartsWith(s, sep)
    requires Split(s[1..], sep) == [s[1..][..k - 1]] + Split(s[1..][k - 1 + |sep|..], sep)
    ensures Split(s, sep) == [s[..k]] + Split(s[k + |sep|..], sep)
  {
    assert s[1..][k - 1 + |sep|..] == s[k + |sep|..];
    assert [s[0]] + s[1..][..k - 1] == s[..k];
  }

  /** A pattern with a character the text lacks occurs nowhere in it. */
  lemma NoMatchWhenAbsent(s: string, sep: string, c: char)
    requires c in sep && c !in s
    ensures NoMatchBefore(s, sep, |s|)
  {
  }

  /** No occurrence of `sep` can start where its first character does not appear. */
  lemma NoMatchBeforeFirstChar(s: string, sep: string, k: nat)
    requires |sep| > 0 && k <= |s| && sep[0] !in s[..k]
    ensures NoMatchBefore(s, sep, k)
  {
    forall i | 0 <= i < k
      ensures !StartsWith(s[i..], sep)
    {
      assert s[..k][i] == s[i];
    }
  }

  /** Lower-casing neither adds nor removes a character that is not an upper-case letter. */
  lemma ToLowerKeepsAbsent(s: string, c: char)
    requires !('A' <= c <= 'Z') && !('a' <= c <= 'z')
    ensures c in ToLower(s) <==> c in s
  {
    if c in ToLower(s) {
      var i :| 0 <= i < |s| && ToLower(s)[i] == c;
      assert s[i] == c;
    }
    if c in s {
      var i :| 0 <= i < |s| && s[i] == c;
      assert ToLower(s)[i] == c;
    }
  }

  /** For a one-character separator, "no match before k" is "not in the first k characters". */
  lemma NoMatchBeforeChar(s: string, c: char, k: nat)
    requires k <= |s| && c !in s[..k]
    ensures NoMatchBefore(s, [c], k)
  {
    forall i | 0 <= i < k && i <= |s|
      ensures !StartsWith(s[i..], [c])
    {
      assert s[..k][i] == s[i];
    }
  }

  /** Splitting `a + [c] + b` on `c` when `a` holds no `c`. */
  lemma SplitCharAt(a: string, c: char, b: string)
    requires c !in a
    ensures Split(a + [c] + b, [c]) == [a] + Split(b, [c])
  {
    var s := a + [c] + b;
    assert s[..|a|] == a;
    NoMatchBeforeChar(s, c, |a|);
    SplitAt(s, [c], |a|);
    assert s[|a| + 1..] == b;
  }

  /** Splitting on `c` a string that holds no `c`. */
  lemma SplitCharNone(s: string, c: char)
    requires c !in s
    ensures Split(s, [c]) == [s]
  {
    assert s[..|s|] == s;
    NoMatchBeforeChar(s, c, |s|);
    SplitNoMatch(s, [c]);
  }

  /** `x` occurs in the concatenation exactly when it occurs in one of the parts. */
  lemma {:induction false} FlattenMember<T>(xss: seq<seq<T>>, x: T)
    ensures x in Flatten(xss) <==> exists i :: 0 <= i < |xss| && x in xss[i]
    decreases |xss|
  {
    if xss != [] {
      FlattenMember(xss[1..], x);
      if x in Flatten(xss[1..]) {
        var i :| 0 <= i < |xss[1..]| && x in xss[1..][i];
        assert x in xss[i + 1];
      }
      if exists i :: 0 <= i < |xss| && x in xss[i] {
        var i :| 0 <= i < |xss| && x in xss[i];
        if i > 0 {
          assert xss[1..][i - 1] == xss[i];
        }
      }
    }
  }

  /** Every character of every piece of a split comes from the input. */
  lemma {:induction false} SplitPiecesWithin(s: string, sep: string)
    requires |sep| > 0
    ensures forall p, x :: p in Split(s, sep) && x in p ==> x in s
    decreases |s|
  {
    if s == [] {
    } else if StartsWith(s, sep) {
      SplitPiecesWithin(s[|sep|..], sep);
      assert forall x :: x in s[|sep|..] ==> x in s;
    } else {
      SplitPiecesWithin(s[1..], sep);
      var rest := Split(s[1..], sep);
      assert forall x :: x in s[1..] ==> x in s;
      forall p, x | p in Split(s, sep) && x in p
        ensures x in s
      {
        if p != [s[0]] + rest[0] {
          assert p in rest;
        }
      }
    }
  }

  /** No piece of a split on a single character contains that character. */
  lemma {:induction false} SplitPiecesFree(s: string, c: char)
    ensures forall p :: p in Split(s, [c]) ==> c !in p
    decreases |s|
  {
    if s == [] {
    } else if StartsWith(s, [c]) {
      SplitPiecesFree(s[1..], c);
    } else {
      assert s[0] != c;
      SplitPiecesFree(s[1..], c);
      var rest := Split(s[1..], [c]);
      forall p | p in Split(s, [c])
        ensures c !in p
      {
        if p != [s[0]] + rest[0] {
          assert p in rest;
        }
      }
    }
  }

  /** Removing every occurrence of one character keeps exactly the other characters. */
  lemma {:induction false} ReplaceDeletes(s: string, c: char)
    ensures forall x :: x in Replace(s, [c], []) <==> x in s && x != c
    decreases |s|
  {
    if s != [] {
      ReplaceDeletes(s[1..], c);
      assert s == [s[0]] + s[1..];
      assert StartsWith(s, [c]) <==> s[0] == c;
    }
  }

  /** Removing a pattern never introduces a character. */
  lemma {:induction false} ReplaceWithin(s: string, from: string)
    requires |from| > 0
    ensures forall x :: x in Replace(s, from, []) ==> x in s
    decreases |s|
  {
    if s == [] {
    } else if StartsWith(s, from) {
      ReplaceWithin(s[|from|..], from);
      assert forall x :: x in s[|from|..] ==> x in s;
    } else {
      ReplaceWithin(s[1..], from);
      assert forall x :: x in s[1..] ==> x in s;
    }
  }

  /** Trimming never introduces a character. */
  lemma TrimWithin(s: string)
    ensures forall x :: x in Trim(s) ==> x in s
  {
    var t := TrimStart(s);
    assert forall x :: x in t ==> x in s;
    assert forall x :: x in TrimEnd(t) ==> x in t;
  }

  /** A string containing the separator character splits into at least two pieces. */
  lemma SplitCharFound(s: string, c: char)
    requires c in s
    ensures |Split(s, [c])| >= 2
  {
    var k :| 0 <= k < |s| && s[k] == c && forall j :: 0 <= j < k ==> s[j] != c by {
      var k0 :| 0 <= k0 < |s| && s[k0] == c;
      var k := FirstIndex(s, c, k0);
    }
    assert s == s[..k] + [c] + s[k + 1..];
    SplitCharAt(s[..k], c, s[k + 1..]);
  }

  /** Splitting on a character gives several pieces exactly when the character occurs. */
  lemma SplitCharCount(s: string, c: char)
    ensures |Split(s, [c])| >= 2 <==> c in s
  {
    if c in s {
      SplitCharFound(s, c);
    } else {
      SplitCharNone(s, c);
    }
  }

  /** The first position of `c` in `s`, at or before `bound`. */
  function FirstIndex(s: string, c: char, bound: nat): (k: nat)
    requires bound < |s| && s[bound] == c
    ensures k <= bound && s[k] == c && forall j :: 0 <= j < k ==> s[j] != c
    decreases bound
  {
    if bound == 0 || forall j :: 0 <= j < bound ==> s[j] != c then bound
    else
      var j :| 0 <= j < bound && s[j] == c;
      FirstIndex(s, c, j)
  }

  /** The words of a text: its pieces between single spaces. */
  function Words(text: string): (words: seq<string>)
    ensures |words| >= 1
    ensures forall w :: w in words ==> ' ' !in w
  {
    SplitPiecesFree(text, ' ');
    Split(text, " ")
  }

  /** Two comma-free parts joined by `, ` split back into those parts. */
  lemma SplitCommaPair(a: string, b: string)
    requires ',' !in a && ',' !in b
    ensures Split(a + ", " + b, ", ") == [a, b]
  {
    var t := a + ", " + b;
    assert t[..|a|] == a && t[|a|..|a| + 2] == ", " && t[|a| + 2..] == b;
    NoMatchBeforeFirstChar(t, ", ", |a|);
    SplitAt(t, ", ", |a|);
    NoMatchWhenAbsent(b, ", ", ',');
    SplitNoMatch(b, ", ");
  }

  /** Two space-free words joined by a space are read back as those words. */
  lemma WordsPair(a: string, b: string)
    requires ' ' !in a && ' ' !in b
    ensures Words(a + " " + b) == [a, b]
  {
    SplitCharAt(a, ' ', b);
    SplitCharNone(b, ' ');
  }

  /** `slice::chunks(n)`: consecutive non-empty slices of at most `n` elements covering `xs` in order. */
  function Chunks<T>(xs: seq<T>, n: nat): (cs: seq<seq<T>>)
    requires n > 0
    ensures Flatten(cs) == xs
    ensures forall i :: 0 <= i < |cs| ==> 0 < |cs[i]| <= n
    ensures forall i :: 0 <= i < |cs| - 1 ==> |cs[i]| == n
    decreases |xs|
  {
    if xs == [] then []
    else if |xs| <= n then [xs]
    else
      assert xs == xs[..n] + xs[n..];
      [xs[..n]] + Chunks(xs[n..], n)
  }

  /** Largest `usize` value on a 64-bit target. */
  const UsizeMax: nat := 0xFFFF_FFFF_FFFF_FFFF

  predicate IsDigit(c: char) {
    '0' <= c <= '9'
  }

  predicate AllDigits(s: string) {
    forall i :: 0 <= i < |s| ==> IsDigit(s[i])
  }

  /** The value of a string of decimal digits. */
  function DigitsValue(s: string): nat
    requires AllDigits(s)
  {
    if s == [] then 0
    else DigitsValue(s[..|s| - 1]) * 10 + (s[|s| - 1] as int - '0' as int)
  }

  function DigitChar(d: nat): (c: char)
    requires d < 10
    ensures IsDigit(c) && c as int - '0' as int == d
  {
    ('0' as int + d) as char
  }

  /** `usize`'s `Display`: the shortest decimal representation. */
  function NatToString(n: nat): (r: string)
    ensures |r| >= 1 && AllDigits(r)
    ensures |r| > 1 ==> r[0] != '0'
  {
    if n < 10 then [DigitChar(n)] else NatToString(n / 10) + [DigitChar(n % 10)]
  }

  /**
   * `usize::from_str`: an optional `+`, then at least one decimal digit, the
   * value fitting in 64 bits; anything else is an error (`None`).
   */
  function ParseUsize(s: string): Option<nat> {
    var digits := if s != [] && s[0] == '+' then s[1..] else s;
    if digits != [] && AllDigits(digits) && DigitsValue(digits) <= UsizeMax
    then Some(DigitsValue(digits))
    else None
  }

  lemma {:induction false} DigitsValueOfNatToString(n: nat)
    ensures DigitsValue(NatToString(n)) == n
  {
    if n >= 10 {
      var s := NatToString(n);
      assert s[..|s| - 1] == NatToString(n / 10);
      DigitsValueOfNatToString(n / 10);
    }
  }

  /** Printing a `usize` and parsing it back gives the same number. */
  lemma ParseUsizeOfNatToString(n: nat)
    requires n <= UsizeMax
    ensures ParseUsize(NatToString(n)) == Some(n)
  {
    DigitsValueOfNatToString(n);
  }
}
