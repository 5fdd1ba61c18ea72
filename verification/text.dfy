/** String primitives the form relies on: JavaScript's `trim()` and `split(/\s+/)`,
    and the whitespace class they share. */
module Text {

  /** The ECMAScript WhiteSpace and LineTerminator code points: what `trim()` strips
      and what the regular-expression class `\s` matches. */
  predicate IsWhitespace(c: char) {
    c == '\t' || c == '\n' || c == '\U{000B}' || c == '\U{000C}' || c == '\r' || c == ' ' ||
    c == '\U{00A0}' || c == '\U{1680}' || ('\U{2000}' <= c <= '\U{200A}') ||
    c == '\U{2028}' || c == '\U{2029}' || c == '\U{202F}' || c == '\U{205F}' ||
    c == '\U{3000}' || c == '\U{FEFF}'
  }

  predicate NoWhitespace(s: string) {
    forall i :: 0 <= i < |s| ==> !IsWhitespace(s[i])
  }

  predicate AllWhitespace(s: string) {
    forall i :: 0 <= i < |s| ==> IsWhitespace(s[i])
  }

  /** Length of the whitespace run that starts `s`. */
  function LeadingWhitespace(s: string): (n: nat)
    ensures n <= |s|
    ensures forall k :: 0 <= k < n ==> IsWhitespace(s[k])
    ensures n < |s| ==> !IsWhitespace(s[n])
  {
    if s != [] && IsWhitespace(s[0]) then 1 + LeadingWhitespace(s[1..]) else 0
  }

  /** Length of the whitespace run that ends `s`. */
  function TrailingWhitespace(s: string): (n: nat)
    ensures n <= |s|
    ensures forall k :: |s| - n <= k < |s| ==> IsWhitespace(s[k])
    ensures n < |s| ==> !IsWhitespace(s[|s| - 1 - n])
  {
    if s != [] && IsWhitespace(s[|s| - 1]) then 1 + TrailingWhitespace(s[..|s| - 1]) else 0
  }

  /** `s.trim()`: `s` without its leading and trailing whitespace runs. */
  function Trim(s: string): (r: string)
    ensures r == [] <==> AllWhitespace(s)
    ensures r != [] ==> !IsWhitespace(r[0]) && !IsWhitespace(r[|r| - 1])
    ensures LeadingWhitespace(s) + |r| <= |s|
    ensures r == s[LeadingWhitespace(s)..LeadingWhitespace(s) + |r|]
    ensures forall k :: LeadingWhitespace(s) + |r| <= k < |s| ==> IsWhitespace(s[k])
  {
    var a := LeadingWhitespace(s);
    var b := |s| - TrailingWhitespace(s);
    if a < b then s[a..b] else []
  }

  /** Trimming is idempotent. */
  lemma {:induction false} TrimIdempotent(s: string)
    ensures Trim(Trim(s)) == Trim(s)
  {
    var r := Trim(s);
    if r != [] {
      assert LeadingWhitespace(r) == 0;
      assert TrailingWhitespace(r) == 0;
    }
  }

  /** Index of the first whitespace character of `s`, or `|s|` when there is none. */
  function FirstWhitespace(s: string): (i: nat)
    ensures i <= |s|
    ensures forall k :: 0 <= k < i ==> !IsWhitespace(s[k])
    ensures i < |s| ==> IsWhitespace(s[i])
  {
    if s == [] || IsWhitespace(s[0]) then 0 else 1 + FirstWhitespace(s[1..])
  }

  /** End of the whitespace run that starts at the first whitespace character of `s`. */
  function GapEnd(s: string): (j: nat)
    requires FirstWhitespace(s) < |s|
    ensures FirstWhitespace(s) < j <= |s|
    ensures forall m :: FirstWhitespace(s) <= m < j ==> IsWhitespace(s[m])
    ensures j < |s| ==> !IsWhitespace(s[j])
  {
    var i := FirstWhitespace(s);
    var gap := s[i..];
    assert gap[0] == s[i];
    var n := LeadingWhitespace(gap);
    assert forall m :: i <= m < i + n ==> s[m] == gap[m - i];
    assert i + n < |s| ==> s[i + n] == gap[n];
    i + n
  }

  /** `s.split(/\s+/)`: the pieces of `s` between its maximal whitespace runs.  An empty
      piece appears first (last) when `s` starts (ends) with whitespace, and the
      empty string splits into one empty piece. */
  function SplitWhitespace(s: string): (parts: seq<string>)
    ensures |parts| >= 1
    ensures forall k :: 0 <= k < |parts| ==> NoWhitespace(parts[k])
    decreases |s|
  {
    if FirstWhitespace(s) == |s| then
      assert s[..|s|] == s;
      [s]
    else
      [s[..FirstWhitespace(s)]] + SplitWhitespace(s[GapEnd(s)..])
  }

  /** `split(/\s+/)` cuts a string into two or more pieces iff it holds whitespace. */
  lemma SplitCount(s: string)
    ensures |SplitWhitespace(s)| >= 2 <==> !NoWhitespace(s)
  {
    if !NoWhitespace(s) {
      var i, j := SplitStep(s);
    }
  }

  /** A string with non-whitespace characters at both ends splits into non-empty pieces. */
  lemma {:induction false} SplitTrimmedNonEmpty(s: string)
    requires s != [] && !IsWhitespace(s[0]) && !IsWhitespace(s[|s| - 1])
    ensures forall k :: 0 <= k < |SplitWhitespace(s)| ==> SplitWhitespace(s)[k] != []
    decreases |s|
  {
    if !NoWhitespace(s) {
      var i, j := SplitStep(s);
      var rest := s[j..];
      assert rest[0] == s[j] && rest[|rest| - 1] == s[|s| - 1];
      SplitTrimmedNonEmpty(rest);
    }
  }

  /** `s` without any whitespace character. */
  function RemoveWhitespace(s: string): string
  {
    if s == [] then []
    else (if IsWhitespace(s[0]) then [] else [s[0]]) + RemoveWhitespace(s[1..])
  }

  lemma {:induction false} RemoveWhitespaceAppend(a: string, b: string)
    ensures RemoveWhitespace(a + b) == RemoveWhitespace(a) + RemoveWhitespace(b)
  {
    if a != [] {
      var head := if IsWhitespace(a[0]) then [] else [a[0]];
      assert (a + b)[0] == a[0];
      assert (a + b)[1..] == a[1..] + b;
      calc {
        RemoveWhitespace(a + b);
        head + RemoveWhitespace(a[1..] + b);
        { RemoveWhitespaceAppend(a[1..], b); }
        head + (RemoveWhitespace(a[1..]) + RemoveWhitespace(b));
        (head + RemoveWhitespace(a[1..])) + RemoveWhitespace(b);
      }
    } else {
      assert a + b == b;
    }
  }

  lemma {:induction false} RemoveWhitespaceKeeps(s: string)
    ensures NoWhitespace(s) ==> RemoveWhitespace(s) == s
    ensures AllWhitespace(s) ==> RemoveWhitespace(s) == []
  {
    if s != [] {
      RemoveWhitespaceKeeps(s[1..]);
    }
  }

  /** The concatenation of a sequence of strings. */
  function Concat(parts: seq<string>): (r: string)
  {
    if parts == [] then [] else parts[0] + Concat(parts[1..])
  }

  /** Splitting loses only whitespace: the pieces, put back together, are exactly the
      non-whitespace characters of `s`, in order. */
  lemma {:induction false} SplitKeepsContent(s: string)
    ensures Concat(SplitWhitespace(s)) == RemoveWhitespace(s)
    decreases |s|
  {
    if NoWhitespace(s) {
      RemoveWhitespaceKeeps(s);
      assert SplitWhitespace(s) == [s];
      assert Concat([s]) == s + Concat([]);
    } else {
      var first, gap, rest := SplitPieces(s);
      ConcatCons(first, SplitWhitespace(rest));
      SplitKeepsContent(rest);
      RemoveWhitespaceStep(first, gap, rest);
    }
  }

  lemma ConcatCons(a: string, parts: seq<string>)
    ensures Concat([a] + parts) == a + Concat(parts)
  {
    assert ([a] + parts)[1..] == parts;
  }

  /** Removing whitespace from a word, a whitespace run and a rest leaves the word
      followed by the rest without its whitespace. */
  lemma RemoveWhitespaceStep(first: string, gap: string, rest: string)
    requires NoWhitespace(first) && AllWhitespace(gap)
    ensures RemoveWhitespace(first + gap + rest) == first + RemoveWhitespace(rest)
  {
    RemoveWhitespaceAppend(first + gap, rest);
    RemoveWhitespaceAppend(first, gap);
    RemoveWhitespaceKeeps(first);
    RemoveWhitespaceKeeps(gap);
  }

  /** A character JavaScript stores in one UTF-16 code unit: one of the Basic
      Multilingual Plane.  Every other character takes a surrogate pair. */
  predicate InBmp(c: char) {
    c <= '\U{FFFF}'
  }

  /** JavaScript's `length` of a string: its number of UTF-16 code units. */
  function Utf16Length(s: string): (n: nat)
    ensures |s| <= n <= 2 * |s|
  {
    if s == [] then 0 else (if InBmp(s[0]) then 1 else 2) + Utf16Length(s[1..])
  }

  /** JavaScript's length is the number of characters exactly when all of them lie in the
      Basic Multilingual Plane. */
  lemma {:induction false} Utf16LengthAllBmp(s: string)
    ensures Utf16Length(s) == |s| <==> forall i :: 0 <= i < |s| ==> InBmp(s[i])
  {
    if s != [] {
      Utf16LengthAllBmp(s[1..]);
      assert forall i :: 1 <= i < |s| ==> s[i] == s[1..][i - 1];
    }
  }

  lemma {:induction false} Utf16LengthAppend(a: string, b: string)
    ensures Utf16Length(a + b) == Utf16Length(a) + Utf16Length(b)
  {
    if a == [] {
      assert a + b == b;
    } else {
      assert (a + b)[0] == a[0];
      assert (a + b)[1..] == a[1..] + b;
      Utf16LengthAppend(a[1..], b);
    }
  }

  /** A later suffix is never longer in UTF-16 units. */
  lemma Utf16LengthSuffix(s: string, i: nat, j: nat)
    requires i <= j <= |s|
    ensures Utf16Length(s[i..]) >= Utf16Length(s[j..])
  {
    assert s[i..] == s[i..j] + s[j..];
    Utf16LengthAppend(s[i..j], s[j..]);
  }

  /** A string JavaScript gives length 1: one character of the Basic Multilingual Plane. */
  predicate IsOneUnit(w: string) {
    |w| == 1 && InBmp(w[0])
  }

  /** A non-empty string is shorter than two UTF-16 units exactly when it is one unit. */
  lemma Utf16LengthBelowTwo(w: string)
    requires w != []
    ensures Utf16Length(w) < 2 <==> IsOneUnit(w)
  {
    if |w| == 1 {
      assert w[1..] == [];
    }
  }

  /** `s[i]` is a word of one UTF-16 unit: a character of the Basic Multilingual Plane
      that is not whitespace, with whitespace or an end of the string on each side. */
  predicate OneUnitWordAt(s: string, i: int)
    requires 0 <= i < |s|
  {
    !IsWhitespace(s[i]) && InBmp(s[i]) &&
    (i == 0 || IsWhitespace(s[i - 1])) &&
    (i == |s| - 1 || IsWhitespace(s[i + 1]))
  }

  predicate HasOneUnitWord(s: string) {
    exists i :: 0 <= i < |s| && OneUnitWordAt(s, i)
  }

  predicate HasOneUnitPiece(parts: seq<string>) {
    exists k :: 0 <= k < |parts| && IsOneUnit(parts[k])
  }

  /** One step of `SplitWhitespace` on a string that holds whitespace: the first piece
      `s[..i]`, the whitespace run `s[i..j]`, and the rest `s[j..]`. */
  lemma SplitStep(s: string) returns (i: nat, j: nat)
    requires !NoWhitespace(s)
    ensures i < j <= |s|
    ensures forall m :: 0 <= m < i ==> !IsWhitespace(s[m])
    ensures forall m :: i <= m < j ==> IsWhitespace(s[m])
    ensures j < |s| ==> !IsWhitespace(s[j])
    ensures SplitWhitespace(s) == [s[..i]] + SplitWhitespace(s[j..])
  {
    i := FirstWhitespace(s);
    var m0 :| 0 <= m0 < |s| && IsWhitespace(s[m0]);
    assert i <= m0 < |s|;
    j := GapEnd(s);
  }

  /** `SplitStep` as the three pieces: first word, whitespace run, rest. */
  lemma SplitPieces(s: string) returns (first: string, gap: string, rest: string)
    requires !NoWhitespace(s)
    ensures s == first + gap + rest && gap != []
    ensures NoWhitespace(first) && AllWhitespace(gap)
    ensures SplitWhitespace(s) == [first] + SplitWhitespace(rest)
  {
    var i, j := SplitStep(s);
    first, gap, rest := s[..i], s[i..j], s[j..];
    ThreeSlices(s, i, j);
  }

  lemma ThreeSlices(s: string, i: nat, j: nat)
    requires i <= j <= |s|
    ensures s == s[..i] + s[i..j] + s[j..]
  {
  }

  /** A one-unit word of the window `s[lo..hi]` is one of `s` when the window is
      bounded by whitespace or by the ends of `s`. */
  lemma WindowWordLifts(s: string, lo: nat, hi: nat, p: nat)
    requires lo <= hi <= |s| && p < hi - lo
    requires lo > 0 ==> IsWhitespace(s[lo - 1])
    requires hi < |s| ==> IsWhitespace(s[hi])
    requires OneUnitWordAt(s[lo..hi], p)
    ensures OneUnitWordAt(s, lo + p)
  {
    var w := s[lo..hi];
    assert w[p] == s[lo + p];
    assert p > 0 ==> w[p - 1] == s[lo + p - 1];
    assert p < |w| - 1 ==> w[p + 1] == s[lo + p + 1];
  }

  /** A one-unit word of the suffix `s[lo..]`, preceded by whitespace, is one of `s`. */
  lemma SuffixWordLifts(s: string, lo: nat, p: nat)
    requires 0 < lo <= |s| && p < |s| - lo
    requires IsWhitespace(s[lo - 1])
    requires OneUnitWordAt(s[lo..], p)
    ensures OneUnitWordAt(s, lo + p) && HasOneUnitWord(s)
  {
    var w := s[lo..];
    assert w[p] == s[lo + p];
    assert p > 0 ==> w[p - 1] == s[lo + p - 1];
    assert p < |w| - 1 ==> w[p + 1] == s[lo + p + 1];
    assert OneUnitWordAt(s, lo + p);
  }

  /** A one-unit word of `s` inside the window `s[lo..hi]` is one of the window. */
  lemma WindowWordDescends(s: string, lo: nat, hi: nat, q: nat)
    requires lo <= q < hi <= |s|
    requires OneUnitWordAt(s, q)
    ensures OneUnitWordAt(s[lo..hi], q - lo) && HasOneUnitWord(s[lo..hi])
  {
    var w := s[lo..hi];
    assert w[q - lo] == s[q];
    assert q > lo ==> w[q - lo - 1] == s[q - 1];
    assert q < hi - 1 ==> w[q - lo + 1] == s[q + 1];
    assert OneUnitWordAt(w, q - lo);
  }

  /** A one-unit piece of the split comes from a one-unit word of the string. */
  lemma {:induction false} OneUnitPieceIsWord(s: string)
    requires HasOneUnitPiece(SplitWhitespace(s))
    ensures HasOneUnitWord(s)
    decreases |s|
  {
    if NoWhitespace(s) {
      var parts := SplitWhitespace(s);
      assert parts == [s];
      var k :| 0 <= k < |parts| && IsOneUnit(parts[k]);
      assert k == 0 && IsOneUnit(s);
      assert OneUnitWordAt(s, 0);
    } else {
      var i, j := SplitStep(s);
      var first, rest := s[..i], s[j..];
      if IsOneUnit(first) {
        FirstPieceWord(s, i, j);
      } else {
        OneUnitPieceTail(first, SplitWhitespace(rest));
        OneUnitPieceIsWord(rest);
        var p :| 0 <= p < |rest| && OneUnitWordAt(rest, p);
        SuffixWordLifts(s, j, p);
      }
    }
  }

  /** A first piece `s[..i]` of one unit, followed by whitespace, is a one-unit word. */
  lemma FirstPieceWord(s: string, i: nat, j: nat)
    requires i < j <= |s| && IsOneUnit(s[..i])
    requires forall m :: 0 <= m < i ==> !IsWhitespace(s[m])
    requires forall m :: i <= m < j ==> IsWhitespace(s[m])
    ensures HasOneUnitWord(s)
  {
    assert i == 1 && s[..i][0] == s[0];
    assert OneUnitWordAt(s, 0);
  }

  lemma OneUnitPieceTail(a: string, parts: seq<string>)
    requires HasOneUnitPiece([a] + parts) && !IsOneUnit(a)
    ensures HasOneUnitPiece(parts)
  {
    var all := [a] + parts;
    var k :| 0 <= k < |all| && IsOneUnit(all[k]);
    assert k > 0 && all[k] == parts[k - 1];
  }

  /** A one-unit word of the string shows up as a one-unit piece of its split. */
  lemma {:induction false} OneUnitWordIsPiece(s: string)
    requires HasOneUnitWord(s)
    ensures HasOneUnitPiece(SplitWhitespace(s))
    decreases |s|
  {
    var q :| 0 <= q < |s| && OneUnitWordAt(s, q);
    if NoWhitespace(s) {
      OneUnitWordAlone(s, q);
    } else {
      var i, j := SplitStep(s);
      var rest := s[j..];
      if q < i {
        FirstWordPiece(s, q, i, j);
      } else {
        assert q >= j;
        WindowWordDescends(s, j, |s|, q);
        assert s[j..|s|] == rest;
        OneUnitWordIsPiece(rest);
        OneUnitPieceCons(s[..i], SplitWhitespace(rest));
      }
    }
  }

  /** A one-unit word before the first whitespace is the first piece of the split. */
  lemma FirstWordPiece(s: string, q: nat, i: nat, j: nat)
    requires q < i < j <= |s| && OneUnitWordAt(s, q)
    requires forall m :: 0 <= m < i ==> !IsWhitespace(s[m])
    requires IsWhitespace(s[i])
    requires SplitWhitespace(s) == [s[..i]] + SplitWhitespace(s[j..])
    ensures HasOneUnitPiece(SplitWhitespace(s))
  {
    assert q == 0 && i == 1;
    var parts := SplitWhitespace(s);
    assert parts[0] == s[..1] && s[..1][0] == s[0];
    assert IsOneUnit(parts[0]);
  }

  lemma OneUnitPieceCons(a: string, parts: seq<string>)
    requires HasOneUnitPiece(parts)
    ensures HasOneUnitPiece([a] + parts)
  {
    var k :| 0 <= k < |parts| && IsOneUnit(parts[k]);
    assert ([a] + parts)[k + 1] == parts[k];
  }

  /** A string without whitespace holds a one-unit word only when it is that word. */
  lemma OneUnitWordAlone(s: string, q: nat)
    requires q < |s| && NoWhitespace(s) && OneUnitWordAt(s, q)
    ensures HasOneUnitPiece(SplitWhitespace(s))
  {
    assert q == 0 && |s| == 1;
    var parts := SplitWhitespace(s);
    assert parts[0] == s;
    assert IsOneUnit(parts[0]);
  }

  /** Trimming neither creates nor destroys one-unit words. */
  lemma TrimOneUnitWord(s: string)
    ensures HasOneUnitWord(Trim(s)) <==> HasOneUnitWord(s)
  {
    var r := Trim(s);
    var lo := LeadingWhitespace(s);
    var hi := lo + |r|;
    assert r == s[lo..hi];
    if HasOneUnitWord(r) {
      var p :| 0 <= p < |r| && OneUnitWordAt(r, p);
      WindowWordLifts(s, lo, hi, p);
    }
    if HasOneUnitWord(s) {
      var q :| 0 <= q < |s| && OneUnitWordAt(s, q);
      assert lo <= q < hi;
      WindowWordDescends(s, lo, hi, q);
    }
  }

  /** Index of the first `c` in `s`, or `|s|` when there is none. */
  function IndexOf(s: string, c: char): (i: nat)
    ensures i <= |s|
    ensures forall k :: 0 <= k < i ==> s[k] != c
    ensures i < |s| ==> s[i] == c
  {
    if s == [] || s[0] == c then 0 else 1 + IndexOf(s[1..], c)
  }
}
