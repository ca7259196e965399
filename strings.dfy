/**
 * The .NET string operations the core relies on, stated over `seq<char>`:
 * `char.IsWhiteSpace`, `Trim`, `TrimEnd`, ordinal `IndexOf`, `Split`,
 * ordinal `Replace`, `OrdinalIgnoreCase` comparison, `ToLowerInvariant`,
 * `string.IsNullOrEmpty`/`IsNullOrWhiteSpace`, Serenity's `TrimToNull`
 * and invariant-culture formatting of integers.
 *
 * Case mapping covers the ASCII letters only.
 */
module Strings {
  import opened Basics

  // ---------------------------------------------------------------------
  // Whitespace and trimming
  // ---------------------------------------------------------------------

  /** The characters `char.IsWhiteSpace` accepts. */
  predicate IsWhiteSpace(c: char) {
    c == ' ' || ('\t' <= c <= '\r') || c == '\U{85}' || c == '\U{A0}' || c == '\U{1680}'
    || ('\U{2000}' <= c <= '\U{200A}') || c == '\U{2028}' || c == '\U{2029}'
    || c == '\U{202F}' || c == '\U{205F}' || c == '\U{3000}'
  }

  predicate AllWhiteSpace(s: string) {
    forall i | 0 <= i < |s| :: IsWhiteSpace(s[i])
  }

  /** Drops leading whitespace. */
  function TrimStart(s: string): string {
    if |s| > 0 && IsWhiteSpace(s[0]) then TrimStart(s[1..]) else s
  }

  /** Drops trailing whitespace. */
  function TrimEnd(s: string): string {
    if |s| > 0 && IsWhiteSpace(s[|s| - 1]) then TrimEnd(s[..|s| - 1]) else s
  }

  /** `string.Trim()`. */
  function Trim(s: string): string {
    TrimEnd(TrimStart(s))
  }

  /** `TrimEnd(c)`: drops every trailing occurrence of `c`. */
  function TrimEndChar(s: string, c: char): (r: string)
    ensures |r| <= |s| && r == s[..|r|]
    ensures r == [] || r[|r| - 1] != c
    ensures forall i | |r| <= i < |s| :: s[i] == c
  {
    if |s| > 0 && s[|s| - 1] == c then TrimEndChar(s[..|s| - 1], c) else s
  }

  lemma {:induction false} TrimStartAllWhiteSpace(s: string)
    ensures TrimStart(s) == [] <==> AllWhiteSpace(s)
    ensures TrimStart(s) == [] || !IsWhiteSpace(TrimStart(s)[0])
  {
    if |s| > 0 && IsWhiteSpace(s[0]) {
      TrimStartAllWhiteSpace(s[1..]);
      assert AllWhiteSpace(s[1..]) <==> AllWhiteSpace(s) by {
        assert forall i | 1 <= i < |s| :: s[i] == s[1..][i - 1];
      }
    }
  }

  lemma {:induction false} TrimEndAllWhiteSpace(s: string)
    ensures TrimEnd(s) == [] <==> AllWhiteSpace(s)
  {
    if |s| > 0 && IsWhiteSpace(s[|s| - 1]) {
      var t := s[..|s| - 1];
      TrimEndAllWhiteSpace(t);
      assert AllWhiteSpace(t) <==> AllWhiteSpace(s) by {
        assert forall i | 0 <= i < |t| :: s[i] == t[i];
      }
    }
  }

  /** A string trims to nothing exactly when it is all whitespace. */
  lemma TrimEmptyIffWhiteSpace(s: string)
    ensures Trim(s) == [] <==> AllWhiteSpace(s)
  {
    TrimStartAllWhiteSpace(s);
    var t := TrimStart(s);
    TrimEndAllWhiteSpace(t);
    assert AllWhiteSpace(t) <==> t == [] by {
      if t != [] { assert !IsWhiteSpace(t[0]); }
    }
  }

  /** `TrimEnd` keeps a prefix that is empty or ends in non-whitespace. */
  lemma {:induction false} TrimEndShape(s: string)
    ensures |TrimEnd(s)| <= |s| && TrimEnd(s) == s[..|TrimEnd(s)|]
    ensures TrimEnd(s) == [] || !IsWhiteSpace(TrimEnd(s)[|TrimEnd(s)| - 1])
    decreases |s|
  {
    if |s| > 0 && IsWhiteSpace(s[|s| - 1]) {
      var t := s[..|s| - 1];
      TrimEndShape(t);
      assert t[..|TrimEnd(t)|] == s[..|TrimEnd(t)|];
    }
  }

  /** Trimming twice trims no more than trimming once. */
  lemma TrimIdempotent(s: string)
    ensures Trim(Trim(s)) == Trim(s)
  {
    var t := TrimStart(s);
    TrimStartAllWhiteSpace(s);
    var u := TrimEnd(t);
    TrimEndShape(t);
    if u != [] {
      assert u[0] == t[0];
    }
    assert TrimStart(u) == u;
  }

  // ---------------------------------------------------------------------
  // Nullable strings: IsNullOrEmpty, IsNullOrWhiteSpace, TrimToNull
  // ---------------------------------------------------------------------

  predicate IsNullOrEmpty(s: Option<string>) {
    s == None || s.value == []
  }

  predicate IsNullOrWhiteSpace(s: Option<string>) {
    s == None || AllWhiteSpace(s.value)
  }

  /** Serenity `TrimToNull`: trims and turns an empty result into `null`. */
  function TrimToNull(s: Option<string>): (r: Option<string>)
    ensures r == None <==> IsNullOrWhiteSpace(s)
    ensures r != None ==> r.value != [] && r.value == Trim(s.value)
  {
    TrimEmptyIffWhiteSpace(if s == None then [] else s.value);
    if s == None then None
    else var t := Trim(s.value); if t == [] then None else Some(t)
  }

  /** Serenity `TrimToEmpty`: trims and turns `null` into the empty string. */
  function TrimToEmpty(s: Option<string>): string {
    if s == None then [] else Trim(s.value)
  }

  /**
   * Serenity `IsTrimmedSame`: the two strings are the same once trimmed,
   * `null` counting as empty.
   */
  predicate IsTrimmedSame(a: Option<string>, b: Option<string>) {
    TrimToEmpty(a) == TrimToEmpty(b)
  }

  /** `IsTrimmedSame` agrees with comparing the `TrimToNull` forms. */
  lemma TrimmedSameIffTrimToNullEqual(a: Option<string>, b: Option<string>)
    ensures IsTrimmedSame(a, b) <==> TrimToNull(a) == TrimToNull(b)
  {
    TrimEmptyIffWhiteSpace(if a == None then [] else a.value);
    TrimEmptyIffWhiteSpace(if b == None then [] else b.value);
  }

  // ---------------------------------------------------------------------
  // Character removal and replacement
  // ---------------------------------------------------------------------

  /** `Replace("<c>", "")`: every occurrence of `c` removed. */
  function RemoveChar(s: string, c: char): (r: string)
    ensures c !in r
    ensures |r| <= |s|
  {
    if s == [] then []
    else (if s[0] == c then [] else [s[0]]) + RemoveChar(s[1..], c)
  }

  /** `Replace("<c>", rep)`: every occurrence of the one-character string `c` replaced by `rep`. */
  function ReplaceChar(s: string, c: char, rep: string): string {
    if s == [] then []
    else (if s[0] == c then rep else [s[0]]) + ReplaceChar(s[1..], c, rep)
  }

  lemma {:induction false} RemoveCharAppend(a: string, b: string, c: char)
    ensures RemoveChar(a + b, c) == RemoveChar(a, c) + RemoveChar(b, c)
  {
    if a != [] {
      assert (a + b)[1..] == a[1..] + b;
      RemoveCharAppend(a[1..], b, c);
    } else {
      assert a + b == b;
    }
  }

  lemma {:induction false} RemoveCharIdempotent(s: string, c: char)
    ensures RemoveChar(RemoveChar(s, c), c) == RemoveChar(s, c)
  {
    if s != [] {
      RemoveCharIdempotent(s[1..], c);
      RemoveCharAppend(if s[0] == c then [] else [s[0]], RemoveChar(s[1..], c), c);
    }
  }

  lemma {:induction false} RemoveCharAbsent(s: string, c: char)
    requires c !in s
    ensures RemoveChar(s, c) == s
  {
    if s != [] {
      assert c !in s[1..];
      RemoveCharAbsent(s[1..], c);
    }
  }

  /** Inserting `\r` before every `\n` and then removing every `\r` gives back the text with its `\r`s removed. */
  lemma {:induction false} RemoveCrAfterAddCr(s: string)
    ensures RemoveChar(ReplaceChar(s, '\n', "\r\n"), '\r') == RemoveChar(s, '\r')
  {
    if s != [] {
      RemoveCrAfterAddCr(s[1..]);
      RemoveCharAppend(if s[0] == '\n' then "\r\n" else [s[0]], ReplaceChar(s[1..], '\n', "\r\n"), '\r');
    }
  }

  lemma {:induction false} ReplaceCharAppend(a: string, b: string, c: char, rep: string)
    ensures ReplaceChar(a + b, c, rep) == ReplaceChar(a, c, rep) + ReplaceChar(b, c, rep)
  {
    if a != [] {
      assert (a + b)[1..] == a[1..] + b;
      ReplaceCharAppend(a[1..], b, c, rep);
    } else {
      assert a + b == b;
    }
  }

  lemma {:induction false} ReplaceCharAbsent(s: string, c: char, rep: string)
    requires c !in s
    ensures ReplaceChar(s, c, rep) == s
  {
    if s != [] {
      assert c !in s[1..];
      ReplaceCharAbsent(s[1..], c, rep);
    }
  }

  /** Once `c` is replaced by a text that does not contain it, no `c` remains. */
  lemma {:induction false} ReplaceCharRemovesAll(s: string, c: char, rep: string)
    requires c !in rep
    ensures c !in ReplaceChar(s, c, rep)
  {
    if s != [] {
      ReplaceCharRemovesAll(s[1..], c, rep);
    }
  }

  /** A character in neither the text nor the replacement is not in the result. */
  lemma {:induction false} ReplaceCharKeepsAbsent(s: string, c: char, rep: string, d: char)
    requires d !in s && d !in rep
    ensures d !in ReplaceChar(s, c, rep)
  {
    if s != [] {
      assert d !in s[1..];
      ReplaceCharKeepsAbsent(s[1..], c, rep, d);
    }
  }

  // ---------------------------------------------------------------------
  // Trim commutes with removing '\r'
  // ---------------------------------------------------------------------

  lemma {:induction false} RemoveCharSnoc(s: string, x: char, c: char)
    ensures RemoveChar(s + [x], c) == RemoveChar(s, c) + (if x == c then [] else [x])
  {
    RemoveCharAppend(s, [x], c);
    assert [x][1..] == [];
  }

  lemma {:induction false} TrimStartRemoveCr(s: string)
    ensures TrimStart(RemoveChar(s, '\r')) == RemoveChar(TrimStart(s), '\r')
  {
    if s != [] {
      var head := if s[0] == '\r' then [] else [s[0]];
      var tail := RemoveChar(s[1..], '\r');
      assert RemoveChar(s, '\r') == head + tail;
      if IsWhiteSpace(s[0]) {
        TrimStartRemoveCr(s[1..]);
        if head != [] {
          var t := head + tail;
          assert t[0] == s[0];
          assert t[1..] == tail;
          assert TrimStart(t) == TrimStart(tail);
        } else {
          assert head + tail == tail;
        }
      } else {
        assert head == [s[0]];
        assert (head + tail)[0] == s[0];
      }
    }
  }

  lemma {:induction false} TrimEndRemoveCr(s: string)
    ensures TrimEnd(RemoveChar(s, '\r')) == RemoveChar(TrimEnd(s), '\r')
    decreases |s|
  {
    if s != [] {
      var n := |s| - 1;
      var front := s[..n];
      var x := s[n];
      assert s == front + [x];
      RemoveCharSnoc(front, x, '\r');
      var rf := RemoveChar(front, '\r');
      var last := if x == '\r' then [] else [x];
      assert RemoveChar(s, '\r') == rf + last;
      if IsWhiteSpace(x) {
        assert TrimEnd(s) == TrimEnd(front);
        TrimEndRemoveCr(front);
        if last != [] {
          var t := rf + last;
          assert t[|t| - 1] == x;
          assert t[..|t| - 1] == rf;
          assert TrimEnd(t) == TrimEnd(rf);
        } else {
          assert rf + last == rf;
        }
      } else {
        assert TrimEnd(s) == s;
        var t := rf + [x];
        assert last == [x];
        assert t[|t| - 1] == x;
        assert TrimEnd(t) == t;
      }
    }
  }

  /** `Trim()` followed by removing `\r` equals removing `\r` and then trimming. */
  lemma TrimRemoveCrCommute(s: string)
    ensures RemoveChar(Trim(s), '\r') == Trim(RemoveChar(s, '\r'))
  {
    TrimStartRemoveCr(s);
    TrimEndRemoveCr(TrimStart(s));
  }

  // ---------------------------------------------------------------------
  // Searching
  // ---------------------------------------------------------------------

  /** `s.IndexOf(c, from)`: the first position at or after `from` holding `c`, or -1. */
  function IndexOfFrom(s: string, c: char, from: nat): (r: int)
    requires from <= |s|
    ensures -1 <= r < |s|
    ensures r >= 0 ==> from <= r && s[r] == c && c !in s[from..r]
    ensures r < 0 ==> c !in s[from..]
    decreases |s| - from
  {
    if from == |s| then -1
    else if s[from] == c then from
    else
      var r := IndexOfFrom(s, c, from + 1);
      assert r >= 0 ==> s[from..r] == [s[from]] + s[from + 1..r];
      assert r < 0 ==> s[from..] == [s[from]] + s[from + 1..];
      r
  }

  /** `s.IndexOf(c)`. */
  function IndexOf(s: string, c: char): (r: int)
    ensures -1 <= r < |s|
    ensures r >= 0 ==> s[r] == c && c !in s[..r]
    ensures r < 0 <==> c !in s
  {
    assert s[0..] == s;
    IndexOfFrom(s, c, 0)
  }

  /** Number of occurrences of `c` in `s`. */
  function Count(s: string, c: char): nat {
    if s == [] then 0 else (if s[0] == c then 1 else 0) + Count(s[1..], c)
  }

  lemma {:induction false} CountAppend(a: string, b: string, c: char)
    ensures Count(a + b, c) == Count(a, c) + Count(b, c)
  {
    if a != [] {
      assert (a + b)[1..] == a[1..] + b;
      CountAppend(a[1..], b, c);
    } else {
      assert a + b == b;
    }
  }

  lemma {:induction false} CountAbsent(s: string, c: char)
    requires c !in s
    ensures Count(s, c) == 0
  {
    if s != [] {
      assert c !in s[1..];
      CountAbsent(s[1..], c);
    }
  }

  predicate StartsWith(s: string, prefix: string) {
    |prefix| <= |s| && s[..|prefix|] == prefix
  }

  predicate EndsWith(s: string, suffix: string) {
    |suffix| <= |s| && s[|s| - |suffix|..] == suffix
  }

  /** `pat` occurs somewhere in `s`. */
  predicate Contains(s: string, pat: string)
    decreases |s|
  {
    StartsWith(s, pat) || (s != [] && Contains(s[1..], pat))
  }

  // ---------------------------------------------------------------------
  // Split and its inverse
  // ---------------------------------------------------------------------

  /** `s.Split(c)`: the pieces between occurrences of `c`, empty pieces kept. */
  function Split(s: string, c: char): (parts: seq<string>)
    ensures |parts| >= 1
    ensures forall i | 0 <= i < |parts| :: c !in parts[i]
    decreases |s|
  {
    var i := IndexOf(s, c);
    if i < 0 then [s] else [s[..i]] + Split(s[i + 1..], c)
  }

  /** `string.Join(c, parts)`. */
  function Join(parts: seq<string>, c: char): string
    requires |parts| >= 1
  {
    if |parts| == 1 then parts[0] else parts[0] + [c] + Join(parts[1..], c)
  }

  /** Joining the pieces of a split gives back the original string. */
  lemma {:induction false} JoinSplit(s: string, c: char)
    ensures Join(Split(s, c), c) == s
    decreases |s|
  {
    var i := IndexOf(s, c);
    if i >= 0 {
      var next := i + 1;
      SplitUnfold(s, c, i, next);
      AroundIndex(s, i, next);
      JoinSplit(s[next..], c);
      JoinCons(s[..i], Split(s[next..], c), c);
    }
  }

  /** One step of `Split` at the first separator. */
  lemma SplitUnfold(s: string, c: char, i: nat, next: nat)
    requires i == IndexOf(s, c) && next == i + 1
    ensures next <= |s|
    ensures Split(s, c) == [s[..i]] + Split(s[next..], c)
  {
  }

  /** A text is the part before position `i`, the character there, and the part after it. */
  lemma AroundIndex(s: string, i: nat, next: nat)
    requires i < |s| && next == i + 1
    ensures s == s[..i] + [s[i]] + s[next..]
  {
  }

  lemma JoinCons(head: string, tail: seq<string>, c: char)
    requires |tail| >= 1
    ensures Join([head] + tail, c) == head + [c] + Join(tail, c)
  {
    assert ([head] + tail)[1..] == tail;
  }

  /** Splitting the join of `c`-free pieces gives back the pieces. */
  lemma {:induction false} SplitJoin(parts: seq<string>, c: char)
    requires |parts| >= 1
    requires forall i | 0 <= i < |parts| :: c !in parts[i]
    ensures Split(Join(parts, c), c) == parts
  {
    var s := Join(parts, c);
    if |parts| > 1 {
      var rest := Join(parts[1..], c);
      assert s == parts[0] + [c] + rest;
      assert (parts[0] + [c] + rest)[|parts[0]|] == c;
      assert (parts[0] + [c] + rest)[..|parts[0]|] == parts[0];
      assert IndexOf(s, c) == |parts[0]|;
      assert s[|parts[0]| + 1..] == rest;
      SplitJoin(parts[1..], c);
    } else {
      assert IndexOf(s, c) < 0;
    }
  }

  /** A split has exactly one more piece than there are separators. */
  lemma {:induction false} SplitCount(s: string, c: char)
    ensures |Split(s, c)| == Count(s, c) + 1
    decreases |s|
  {
    var i := IndexOf(s, c);
    if i < 0 {
      CountAbsent(s, c);
    } else {
      SplitCount(s[i + 1..], c);
      assert s == s[..i] + [c] + s[i + 1..];
      CountAppend(s[..i] + [c], s[i + 1..], c);
      CountAppend(s[..i], [c], c);
      CountAbsent(s[..i], c);
    }
  }

  // ---------------------------------------------------------------------
  // Ordinal Replace
  // ---------------------------------------------------------------------

  /** `s.Replace(pat, rep, StringComparison.Ordinal)`: left to right, occurrences do not overlap. */
  function Replace(s: string, pat: string, rep: string): string
    requires |pat| > 0
    decreases |s|
  {
    if |s| < |pat| then s
    else if s[..|pat|] == pat then rep + Replace(s[|pat|..], pat, rep)
    else [s[0]] + Replace(s[1..], pat, rep)
  }

  /** Replacing a pattern that does not occur changes nothing. */
  lemma {:induction false} ReplaceAbsent(s: string, pat: string, rep: string)
    requires |pat| > 0
    requires !Contains(s, pat)
    ensures Replace(s, pat, rep) == s
    decreases |s|
  {
    if |s| >= |pat| {
      ReplaceAbsent(s[1..], pat, rep);
    }
  }

  /** Replacing a one-character pattern is the character-wise replacement. */
  lemma {:induction false} ReplaceOneChar(s: string, c: char, rep: string)
    ensures Replace(s, [c], rep) == ReplaceChar(s, c, rep)
    decreases |s|
  {
    if s != [] {
      ReplaceOneChar(s[1..], c, rep);
      assert s[..1] == [s[0]];
    }
  }

  // ---------------------------------------------------------------------
  // Case-insensitive comparison (ASCII letters)
  // ---------------------------------------------------------------------

  function ToUpperChar(c: char): char {
    if 'a' <= c <= 'z' then (c as int - 32) as char else c
  }

  function ToLowerChar(c: char): char {
    if 'A' <= c <= 'Z' then (c as int + 32) as char else c
  }

  /** The key `StringComparer.OrdinalIgnoreCase` compares by. */
  function FoldCase(s: string): (r: string)
    ensures |r| == |s|
  {
    seq(|s|, i requires 0 <= i < |s| => ToUpperChar(s[i]))
  }

  /** `ToLowerInvariant()`. */
  function ToLower(s: string): (r: string)
    ensures |r| == |s|
  {
    seq(|s|, i requires 0 <= i < |s| => ToLowerChar(s[i]))
  }

  /** `string.Equals(a, b, StringComparison.OrdinalIgnoreCase)`. */
  predicate EqualsIgnoreCase(a: string, b: string) {
    FoldCase(a) == FoldCase(b)
  }

  /** `StartsWith(prefix, StringComparison.OrdinalIgnoreCase)`. */
  predicate StartsWithIgnoreCase(s: string, prefix: string) {
    |prefix| <= |s| && EqualsIgnoreCase(s[..|prefix|], prefix)
  }

  lemma LowerCharEqIffUpperCharEq(x: char, y: char)
    ensures ToLowerChar(x) == ToLowerChar(y) <==> ToUpperChar(x) == ToUpperChar(y)
  {
  }

  /** Lower-casing identifies exactly the strings the ordinal ignore-case comparer identifies. */
  lemma LowerEqIffEqualsIgnoreCase(a: string, b: string)
    ensures ToLower(a) == ToLower(b) <==> EqualsIgnoreCase(a, b)
  {
    if |a| == |b| {
      forall i | 0 <= i < |a| ensures ToLower(a)[i] == ToLower(b)[i] <==> FoldCase(a)[i] == FoldCase(b)[i] {
        LowerCharEqIffUpperCharEq(a[i], b[i]);
      }
      if ToLower(a) == ToLower(b) {
        assert forall i | 0 <= i < |a| :: FoldCase(a)[i] == FoldCase(b)[i] by {
          forall i | 0 <= i < |a| ensures FoldCase(a)[i] == FoldCase(b)[i] {
            assert ToLower(a)[i] == ToLower(b)[i];
          }
        }
      }
      if FoldCase(a) == FoldCase(b) {
        assert forall i | 0 <= i < |a| :: ToLower(a)[i] == ToLower(b)[i] by {
          forall i | 0 <= i < |a| ensures ToLower(a)[i] == ToLower(b)[i] {
            assert FoldCase(a)[i] == FoldCase(b)[i];
          }
        }
      }
    }
  }

  // ---------------------------------------------------------------------
  // Invariant-culture integer formatting
  // ---------------------------------------------------------------------

  predicate IsDigit(c: char) {
    '0' <= c <= '9'
  }

  function DigitChar(d: nat): (c: char)
    requires d < 10
    ensures IsDigit(c)
  {
    ('0' as int + d) as char
  }

  /** `n.ToString(CultureInfo.InvariantCulture)` for a non-negative number. */
  function NatToString(n: nat): (r: string)
    ensures |r| >= 1
    ensures forall i | 0 <= i < |r| :: IsDigit(r[i])
  {
    if n < 10 then [DigitChar(n)] else NatToString(n / 10) + [DigitChar(n % 10)]
  }

  /** `i.ToString(CultureInfo.InvariantCulture)`: a minus sign before the digits of a negative number. */
  function IntToString(i: int): (r: string)
    ensures |r| >= 1
  {
    if i < 0 then "-" + NatToString(-i) else NatToString(i)
  }

  /** Reads a string of decimal digits back as a number. */
  function ParseDigits(s: string): nat
    requires forall i | 0 <= i < |s| :: IsDigit(s[i])
  {
    if s == [] then 0
    else
      assert IsDigit(s[|s| - 1]);
      ParseDigits(s[..|s| - 1]) * 10 + (s[|s| - 1] as int - '0' as int)
  }

  /** Formatting a number loses nothing: its digits read back as the same number. */
  lemma {:induction false} ParseNatToString(n: nat)
    ensures ParseDigits(NatToString(n)) == n
  {
    if n >= 10 {
      ParseNatToString(n / 10);
      var s := NatToString(n);
      assert s[..|s| - 1] == NatToString(n / 10);
    }
  }

  /** Distinct numbers are formatted differently. */
  lemma NatToStringInjective(m: nat, n: nat)
    ensures NatToString(m) == NatToString(n) <==> m == n
  {
    ParseNatToString(m);
    ParseNatToString(n);
  }
}
