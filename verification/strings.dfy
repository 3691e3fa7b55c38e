/** The JavaScript string operations the extension relies on, over `seq<char>`:
    `includes`, ASCII `toLowerCase`, `trim`, `split` on one character, and
    the decimal rendering of a non-negative integer (`Number.prototype.toString`). */
module Strings {

  /** `p` is a prefix of `s`. */
  predicate IsPrefix(p: string, s: string) {
    |p| <= |s| && s[..|p|] == p
  }

  /** JavaScript's `s.includes(p)`: `p` occurs somewhere in `s`. */
  predicate Contains(s: string, p: string)
    decreases |s|
  {
    IsPrefix(p, s) || (|s| > 0 && Contains(s[1..], p))
  }

  /** `p` occurs in `s` starting at index `i`. */
  ghost predicate OccursAt(s: string, p: string, i: int) {
    0 <= i && i + |p| <= |s| && s[i..i + |p|] == p
  }

  /** Any occurrence makes `Contains` true. */
  lemma {:induction false} OccursContains(s: string, p: string, i: int)
    requires OccursAt(s, p, i)
    ensures Contains(s, p)
    decreases i
  {
    if i > 0 {
      assert s[1..][i - 1..i - 1 + |p|] == s[i..i + |p|];
      OccursContains(s[1..], p, i - 1);
    }
  }

  /** `Contains` is witnessed by an occurrence. */
  lemma {:induction false} ContainsOccurs(s: string, p: string) returns (i: nat)
    requires Contains(s, p)
    ensures OccursAt(s, p, i)
    decreases |s|
  {
    if IsPrefix(p, s) {
      i := 0;
    } else {
      var j := ContainsOccurs(s[1..], p);
      assert s[1..][j..j + |p|] == s[j + 1..j + 1 + |p|];
      i := j + 1;
    }
  }

  /** Containment is transitive: whatever contains `m` contains every substring of `m`. */
  lemma ContainsTransitive(s: string, m: string, p: string)
    requires Contains(s, m) && Contains(m, p)
    ensures Contains(s, p)
  {
    var i := ContainsOccurs(s, m);
    var j := ContainsOccurs(m, p);
    forall k | 0 <= k < |p|
      ensures s[i + j + k] == p[k]
    {
      assert s[i..i + |m|][j + k] == m[j + k];
    }
    assert s[i + j..i + j + |p|] == p;
    OccursContains(s, p, i + j);
  }

  /** A substring of one part is a substring of any concatenation around it. */
  lemma ContainsInContext(a: string, x: string, b: string, p: string)
    requires Contains(x, p)
    ensures Contains(a + x + b, p)
  {
    var i := ContainsOccurs(x, p);
    assert (a + x + b)[|a| + i..|a| + i + |p|] == x[i..i + |p|];
    OccursContains(a + x + b, p, |a| + i);
  }

  /** Every character of a contained string occurs in the container. */
  lemma ContainedChars(s: string, p: string)
    ensures Contains(s, p) ==> forall k :: 0 <= k < |p| ==> p[k] in s
  {
    if Contains(s, p) {
      var i := ContainsOccurs(s, p);
      forall k | 0 <= k < |p|
        ensures p[k] in s
      {
        assert s[i..i + |p|][k] == s[i + k];
      }
    }
  }

  /** A string lacking one of `p`'s characters cannot contain `p`. */
  lemma MissingCharExcludes(s: string, p: string, c: char)
    requires c in p && c !in s
    ensures !Contains(s, p)
  {
    ContainedChars(s, p);
  }

  /** Appending keeps every substring. */
  lemma ContainsLeft(x: string, y: string, p: string)
    requires Contains(x, p)
    ensures Contains(x + y, p)
  {
    ContainsInContext([], x, y, p);
    assert [] + x + y == x + y;
  }

  /** Prepending keeps every substring. */
  lemma ContainsRight(x: string, y: string, p: string)
    requires Contains(y, p)
    ensures Contains(x + y, p)
  {
    ContainsInContext(x, y, [], p);
    assert x + y + [] == x + y;
  }

  /** The template string `${f0} ${f1} ... ${fn}`: the fields joined by single spaces. */
  function SpaceJoin(fields: seq<string>): string
    requires |fields| >= 1
    decreases |fields|
  {
    if |fields| == 1 then fields[0] else fields[0] + " " + SpaceJoin(fields[1..])
  }

  /** Whatever one field contains, the joined string contains. */
  lemma {:induction false} SpaceJoinContains(fields: seq<string>, k: nat, p: string)
    requires k < |fields| && Contains(fields[k], p)
    ensures Contains(SpaceJoin(fields), p)
    decreases |fields|
  {
    if |fields| > 1 {
      if k == 0 {
        ContainsLeft(fields[0], " " + SpaceJoin(fields[1..]), p);
        assert fields[0] + (" " + SpaceJoin(fields[1..])) == SpaceJoin(fields);
      } else {
        assert fields[1..][k - 1] == fields[k];
        SpaceJoinContains(fields[1..], k - 1, p);
        ContainsRight(fields[0] + " ", SpaceJoin(fields[1..]), p);
      }
    }
  }

  /** The characters of a space-joined string are spaces or characters of a field. */
  lemma {:induction false} SpaceJoinChars(fields: seq<string>, c: char)
    requires |fields| >= 1
    ensures c in SpaceJoin(fields) ==> c == ' ' || exists k :: 0 <= k < |fields| && c in fields[k]
    decreases |fields|
  {
    if |fields| > 1 {
      var rest := fields[1..];
      SpaceJoinChars(rest, c);
      if c in SpaceJoin(rest) && c != ' ' {
        var k :| 0 <= k < |rest| && c in rest[k];
        assert fields[k + 1] == rest[k];
      }
    }
  }

  /** Every string contains itself. */
  lemma ContainsSelf(s: string)
    ensures Contains(s, s)
  {
    assert OccursAt(s, s, 0);
    OccursContains(s, s, 0);
  }

  // ---------------------------------------------------------------------------
  // Case folding

  /** `toLowerCase` on one character; only ASCII letters are folded in this model. */
  function LowerChar(c: char): char {
    if 'A' <= c <= 'Z' then (c as int + 32) as char else c
  }

  /** `toLowerCase` on a string, character by character. */
  function Lower(s: string): (r: string)
    ensures |r| == |s|
    ensures forall i :: 0 <= i < |s| ==> r[i] == LowerChar(s[i])
  {
    if |s| == 0 then "" else [LowerChar(s[0])] + Lower(s[1..])
  }

  /** A string with no upper-case ASCII letter is its own lower case. */
  lemma LowerNoop(s: string)
    requires forall i :: 0 <= i < |s| ==> !('A' <= s[i] <= 'Z')
    ensures Lower(s) == s
  {
  }

  /** Lower-casing twice is lower-casing once. */
  lemma LowerIdempotent(s: string)
    ensures Lower(Lower(s)) == Lower(s)
  {
    var l := Lower(s);
    assert forall i :: 0 <= i < |l| ==> LowerChar(l[i]) == l[i];
  }

  // ---------------------------------------------------------------------------
  // Trimming

  /** The characters `String.prototype.trim` removes: ECMAScript WhiteSpace and LineTerminator. */
  predicate IsSpace(c: char) {
    || c == ' ' || c == '\t' || c == '\n' || c == '\r'
    || c == '\U{000B}' || c == '\U{000C}' || c == '\U{00A0}' || c == '\U{1680}'
    || ('\U{2000}' <= c <= '\U{200A}')
    || c == '\U{2028}' || c == '\U{2029}' || c == '\U{202F}' || c == '\U{205F}'
    || c == '\U{3000}' || c == '\U{FEFF}'
  }

  /** Lower-casing never turns a space into a non-space or back. */
  lemma LowerKeepsSpaces(c: char)
    ensures IsSpace(LowerChar(c)) == IsSpace(c)
  {
  }

  /** Drops leading characters that satisfy `drop`: the result is the suffix of `s`
      after the longest such run. */
  function DropWhile(s: string, drop: char -> bool): (r: string)
    ensures |r| <= |s| && r == s[|s| - |r|..]
    ensures |r| > 0 ==> !drop(r[0])
    ensures forall k :: 0 <= k < |s| - |r| ==> drop(s[k])
    decreases |s|
  {
    if |s| > 0 && drop(s[0]) then
      var r := DropWhile(s[1..], drop);
      assert forall k :: 1 <= k < |s| ==> s[k] == s[1..][k - 1];
      assert s[1..][|s| - 1 - |r|..] == s[|s| - |r|..];
      r
    else s
  }

  /** Drops trailing characters that satisfy `drop`: the result is the prefix of `s`
      before the longest such run. */
  function DropLastWhile(s: string, drop: char -> bool): (r: string)
    ensures |r| <= |s| && r == s[..|r|]
    ensures |r| > 0 ==> !drop(r[|r| - 1])
    ensures forall k :: |r| <= k < |s| ==> drop(s[k])
    decreases |s|
  {
    if |s| > 0 && drop(s[|s| - 1]) then
      var r := DropLastWhile(s[..|s| - 1], drop);
      assert forall k :: 0 <= k < |s| - 1 ==> s[k] == s[..|s| - 1][k];
      assert s[..|s| - 1][..|r|] == s[..|r|];
      r
    else s
  }

  /** `String.prototype.trim`: the part of `s` between its leading and trailing spaces. */
  function Trim(s: string): (r: string)
    ensures |r| <= |s|
    ensures |r| > 0 ==> !IsSpace(r[0]) && !IsSpace(r[|r| - 1])
  {
    DropLastWhile(DropWhile(s, IsSpace), IsSpace)
  }

  /** What `Trim` removes is spaces only: the trim sits in `s` at some offset with
      nothing but spaces before and after it. */
  lemma TrimSpec(s: string)
    ensures exists i :: TrimmedAt(s, Trim(s), i)
  {
    var t := DropWhile(s, IsSpace);
    var r := DropLastWhile(t, IsSpace);
    var i := |s| - |t|;
    assert Trim(s) == r;
    assert s[i..i + |r|] == t[..|r|];
    assert forall k :: i + |r| <= k < |s| ==> s[k] == t[k - i];
    assert TrimmedAt(s, r, i);
  }

  /** Only a blank string trims to nothing. */
  lemma TrimEmpty(s: string)
    ensures Trim(s) == "" <==> forall k :: 0 <= k < |s| ==> IsSpace(s[k])
  {
    TrimSpec(s);
    if forall k :: 0 <= k < |s| ==> IsSpace(s[k]) {
      assert DropWhile(s, IsSpace) == "";
    }
  }

  /** `r` is `s` with a run of spaces removed before index `i` and after `i + |r|`. */
  ghost predicate TrimmedAt(s: string, r: string, i: int) {
    && 0 <= i <= |s| - |r|
    && s[i..i + |r|] == r
    && (forall k :: 0 <= k < i ==> IsSpace(s[k]))
    && (forall k :: i + |r| <= k < |s| ==> IsSpace(s[k]))
  }

  /** A string without spaces at either end is its own trim. */
  lemma TrimNoop(s: string)
    requires |s| > 0 ==> !IsSpace(s[0]) && !IsSpace(s[|s| - 1])
    ensures Trim(s) == s
  {
  }

  /** Trimming spaces off the front of a string whose core starts and ends with a
      non-space gives the core. */
  lemma TrimLeading(a: string, m: string)
    requires forall k :: 0 <= k < |a| ==> IsSpace(a[k])
    requires |m| > 0 && !IsSpace(m[0]) && !IsSpace(m[|m| - 1])
    ensures Trim(a + m) == m
  {
    var s := a + m;
    var t := DropWhile(s, IsSpace);
    var n := |s| - |t|;
    assert s[|a|] == m[0];
    assert forall k :: 0 <= k < |a| ==> s[k] == a[k];
    assert n == |a|;
    assert t == m;
    TrimNoop(m);
  }

  // ---------------------------------------------------------------------------
  // Splitting

  /** `s.split(sep)` for a one-character separator: always at least one part. */
  function Split(s: string, sep: char): (parts: seq<string>)
    ensures |parts| >= 1
    decreases |s|
  {
    if |s| == 0 then [""]
    else
      var rest := Split(s[1..], sep);
      if s[0] == sep then [""] + rest else [[s[0]] + rest[0]] + rest[1..]
  }

  /** `parts.join(sep)`. */
  function Join(parts: seq<string>, sep: char): string
    requires |parts| >= 1
    decreases |parts|
  {
    if |parts| == 1 then parts[0] else parts[0] + [sep] + Join(parts[1..], sep)
  }

  lemma SplitHead(t: string, sep: char)
    ensures var parts := Split(t, sep);
      && IsPrefix(parts[0], t) && sep !in parts[0]
      && (|parts| == 1 <==> sep !in t)
      && (|parts| >= 2 ==> IsPrefix(parts[0] + [sep] + parts[1], t) && sep !in parts[1]
                           && (|parts[0]| + 1 + |parts[1]| < |t| ==> t[|parts[0]| + 1 + |parts[1]|] == sep))
  {
    var parts := Split(t, sep);
    SplitJoin(t, sep);
    SplitPartsFree(t, sep);
    if |parts| == 1 {
      assert t == parts[0];
    } else {
      var head := parts[0] + [sep] + parts[1];
      if |parts| == 2 {
        assert parts[1..] == [parts[1]];
        assert t == head;
      } else {
        assert parts[1..][1..] == parts[2..];
        assert t == head + [sep] + Join(parts[2..], sep);
        assert t[|head|] == sep;
      }
      assert t[..|head|] == head;
      assert t[|parts[0]|] == sep;
    }
  }

  /** Splitting loses nothing: joining the parts with the separator gives back the input. */
  lemma {:induction false} SplitJoin(s: string, sep: char)
    ensures Join(Split(s, sep), sep) == s
    decreases |s|
  {
    if |s| > 0 {
      var rest := Split(s[1..], sep);
      SplitJoin(s[1..], sep);
      if s[0] == sep {
        assert Split(s, sep)[1..] == rest;
      } else {
        var parts := Split(s, sep);
        if |rest| == 1 {
          assert parts == [[s[0]] + rest[0]];
        } else {
          assert parts[1..] == rest[1..];
          assert Join(rest, sep) == rest[0] + [sep] + Join(rest[1..], sep);
        }
      }
      assert s == [s[0]] + s[1..];
    }
  }

  /** No part contains the separator. */
  lemma {:induction false} SplitPartsFree(s: string, sep: char)
    ensures forall i :: 0 <= i < |Split(s, sep)| ==> sep !in Split(s, sep)[i]
    decreases |s|
  {
    if |s| > 0 {
      SplitPartsFree(s[1..], sep);
    }
  }

  /** A string without the separator splits into itself. */
  lemma {:induction false} SplitFree(x: string, sep: char)
    requires sep !in x
    ensures Split(x, sep) == [x]
    decreases |x|
  {
    if |x| > 0 {
      SplitFree(x[1..], sep);
      assert [x[0]] + x[1..] == x;
    }
  }

  /** Splitting `x + [sep] + y`, with no separator in `x`, gives `x` then the parts of `y`. */
  lemma {:induction false} SplitFirst(x: string, y: string, sep: char)
    requires sep !in x
    ensures Split(x + [sep] + y, sep) == [x] + Split(y, sep)
    decreases |x|
  {
    var s := x + [sep] + y;
    if |x| == 0 {
      assert s[1..] == y;
    } else {
      SplitFirst(x[1..], y, sep);
      assert s[1..] == x[1..] + [sep] + y;
      assert [x[0]] + x[1..] == x;
    }
  }

  /** Joining parts free of the separator and splitting again gives the parts back. */
  lemma {:induction false} JoinSplit(parts: seq<string>, sep: char)
    requires |parts| >= 1
    requires forall i :: 0 <= i < |parts| ==> sep !in parts[i]
    ensures Split(Join(parts, sep), sep) == parts
    decreases |parts|
  {
    if |parts| == 1 {
      SplitFree(parts[0], sep);
    } else {
      JoinSplit(parts[1..], sep);
      SplitFirst(parts[0], Join(parts[1..], sep), sep);
      assert [parts[0]] + parts[1..] == parts;
    }
  }

  /** The text before the first `sep` (all of `s` when there is none). */
  function BeforeFirst(s: string, sep: char): (r: string)
    ensures IsPrefix(r, s) && sep !in r
    ensures |r| < |s| ==> s[|r|] == sep
  {
    SplitPartsFree(s, sep);
    SplitJoin(s, sep);
    var parts := Split(s, sep);
    assert |parts| > 1 ==> s == parts[0] + [sep] + Join(parts[1..], sep);
    parts[0]
  }

  // ---------------------------------------------------------------------------
  // Decimal rendering

  function DigitChar(d: nat): (c: char)
    requires d < 10
    ensures '0' <= c <= '9'
  {
    ('0' as int + d) as char
  }

  /** `n.toString()` for a non-negative integer: decimal digits with no leading zero. */
  function NatToString(n: nat): (r: string)
    ensures |r| >= 1
    ensures forall i :: 0 <= i < |r| ==> '0' <= r[i] <= '9'
    ensures r[0] == '0' ==> n == 0
    ensures n < 10 <==> |r| == 1
    ensures n < 100 <==> |r| <= 2
  {
    if n < 10 then [DigitChar(n)] else NatToString(n / 10) + [DigitChar(n % 10)]
  }

  /** The value of a string of decimal digits. */
  function ParseDecimal(s: string): int
    requires forall i :: 0 <= i < |s| ==> '0' <= s[i] <= '9'
  {
    if |s| == 0 then 0 else ParseDecimal(s[..|s| - 1]) * 10 + (s[|s| - 1] as int - '0' as int)
  }

  /** Rendering then reading a decimal number gives the number back. */
  lemma {:induction false} NatToStringRoundTrip(n: nat)
    ensures ParseDecimal(NatToString(n)) == n
  {
    if n >= 10 {
      NatToStringRoundTrip(n / 10);
      var r := NatToString(n);
      assert r[..|r| - 1] == NatToString(n / 10);
    }
  }
}
