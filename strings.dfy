// The JavaScript string operations the handlers and validators rely on:
// String.prototype.trim, toLowerCase, split and indexOf over single characters.

module Strings {
  /** The white space and line terminators `String.prototype.trim` removes. */
  predicate IsSpace(c: char)
  {
    || c == ' ' || c == '\t' || c == '\n' || c == '\r'
    || c as int == 0x0B || c as int == 0x0C || c as int == 0xA0 || c as int == 0x1680
    || (0x2000 <= c as int <= 0x200A) || c as int == 0x2028 || c as int == 0x2029
    || c as int == 0x202F || c as int == 0x205F || c as int == 0x3000 || c as int == 0xFEFF
  }

  /** `s.trimStart()`. */
  function TrimStart(s: string): (r: string)
    ensures |r| <= |s| && r == s[|s| - |r|..]
    ensures r == [] || !IsSpace(r[0])
    ensures forall i :: 0 <= i < |s| - |r| ==> IsSpace(s[i])
  {
    if s != [] && IsSpace(s[0]) then TrimStart(s[1..]) else s
  }

  /** `s.trimEnd()`. */
  function TrimEnd(s: string): (r: string)
    ensures |r| <= |s| && r == s[..|r|]
    ensures r == [] || !IsSpace(r[|r| - 1])
    ensures forall i :: |r| <= i < |s| ==> IsSpace(s[i])
  {
    if s != [] && IsSpace(s[|s| - 1]) then TrimEnd(s[..|s| - 1]) else s
  }

  /** `s.trim()`: the longest slice of `s` that neither starts nor ends with white space. */
  function Trim(s: string): (r: string)
  {
    TrimEnd(TrimStart(s))
  }

  /** A trimmed string is a slice of the original with no white space at either end, and trimming again changes nothing. */
  lemma TrimFacts(s: string)
    ensures exists i, j :: 0 <= i <= j <= |s| && Trim(s) == s[i..j]
    ensures Trim(s) == [] || (!IsSpace(Trim(s)[0]) && !IsSpace(Trim(s)[|Trim(s)| - 1]))
    ensures Trim(Trim(s)) == Trim(s)
  {
    var t := TrimStart(s);
    var r := TrimEnd(t);
    var i := |s| - |t|;
    assert r == t[..|r|] == s[i..i + |r|];
    assert r == [] || !IsSpace(r[0]) by {
      if r != [] {
        assert r[0] == t[0];
      }
    }
    TrimOfTrimmed(r);
  }

  /** `s.trim()` is empty exactly when `s` holds nothing but white space. */
  lemma TrimEmptyIffBlank(s: string)
    ensures Trim(s) == [] <==> forall i :: 0 <= i < |s| ==> IsSpace(s[i])
  {
  }

  /** A string without white space at its ends is its own trim. */
  lemma TrimOfTrimmed(s: string)
    requires s == [] || (!IsSpace(s[0]) && !IsSpace(s[|s| - 1]))
    ensures Trim(s) == s
  {
  }

  /**
   * The lower case of a character, for the characters whose lower case is an ASCII letter:
   * A-Z and the Kelvin sign (U+212A). Every other character is left as it is.
   */
  function LowerChar(c: char): (r: char)
    ensures 'A' <= c <= 'Z' ==> 'a' <= r <= 'z' && r as int == c as int + 32
    ensures c as int == 0x212A ==> r == 'k'
    ensures !('A' <= c <= 'Z') && c as int != 0x212A ==> r == c
  {
    if 'A' <= c <= 'Z' then (c as int + 32) as char
    else if c as int == 0x212A then 'k'
    else c
  }

  /** `s.toLowerCase()` as far as it yields ASCII letters. */
  function Lower(s: string): (r: string)
    ensures |r| == |s|
    ensures forall i :: 0 <= i < |s| ==> r[i] == LowerChar(s[i])
  {
    seq(|s|, i requires 0 <= i < |s| => LowerChar(s[i]))
  }

  /** Lower-casing twice is lower-casing once. */
  lemma LowerIdempotent(s: string)
    ensures Lower(Lower(s)) == Lower(s)
  {
  }

  /**
   * The upper case of a character, for the characters whose upper case is an ASCII letter:
   * a-z, dotless i (U+0131) and long s (U+017F). Every other character is left as it is.
   */
  function UpperChar(c: char): (r: char)
    ensures 'a' <= c <= 'z' ==> 'A' <= r <= 'Z' && r as int == c as int - 32
    ensures c as int == 0x131 ==> r == 'I'
    ensures c as int == 0x17F ==> r == 'S'
    ensures !('a' <= c <= 'z') && c as int != 0x131 && c as int != 0x17F ==> r == c
  {
    if 'a' <= c <= 'z' then (c as int - 32) as char
    else if c as int == 0x131 then 'I'
    else if c as int == 0x17F then 'S'
    else c
  }

  /** `s.toUpperCase()` as far as it yields ASCII letters. */
  function Upper(s: string): (r: string)
    ensures |r| == |s|
    ensures forall i :: 0 <= i < |s| ==> r[i] == UpperChar(s[i])
  {
    seq(|s|, i requires 0 <= i < |s| => UpperChar(s[i]))
  }

  /** `s.indexOf(c)`, as an option instead of -1. */
  function IndexOf(s: string, c: char): (r: int)
    ensures -1 <= r < |s|
    ensures r >= 0 ==> s[r] == c && forall i :: 0 <= i < r ==> s[i] != c
    ensures r == -1 <==> c !in s
  {
    if s == [] then -1
    else if s[0] == c then 0
    else
      var k := IndexOf(s[1..], c);
      if k == -1 then -1 else k + 1
  }

  /** `s.lastIndexOf(c)`. */
  function LastIndexOf(s: string, c: char): (r: int)
    ensures -1 <= r < |s|
    ensures r >= 0 ==> s[r] == c && forall i :: r < i < |s| ==> s[i] != c
    ensures r == -1 <==> c !in s
  {
    if s == [] then -1
    else if s[|s| - 1] == c then |s| - 1
    else LastIndexOf(s[..|s| - 1], c)
  }

  /** `s.split(c)`: the pieces between the occurrences of `c`; there is always at least one. */
  function Split(s: string, c: char): (r: seq<string>)
    ensures |r| >= 1
    decreases |s|
  {
    if s == [] then [[]]
    else
      var r := Split(s[1..], c);
      if s[0] == c then [[]] + r else [[s[0]] + r[0]] + r[1..]
  }

  /**
   * No piece of `s.split(c)` contains `c`, and there is a single piece, `s` itself, exactly
   * when `s` has no `c`.
   */
  lemma {:induction false} SplitPieces(s: string, c: char)
    ensures forall k :: 0 <= k < |Split(s, c)| ==> c !in Split(s, c)[k]
    ensures |Split(s, c)| == 1 <==> c !in s
    ensures c !in s ==> Split(s, c) == [s]
    decreases |s|
  {
    if s != [] {
      var t := s[1..];
      var r := Split(t, c);
      SplitPieces(t, c);
      assert s == [s[0]] + t;
      var q := Split(s, c);
      if s[0] == c {
        forall k | 0 <= k < |q| ensures c !in q[k] {
          if k > 0 {
            assert q[k] == r[k - 1];
          }
        }
      } else {
        forall k | 0 <= k < |q| ensures c !in q[k] {
          if k > 0 {
            assert q[k] == r[k];
          } else {
            assert q[0] == [s[0]] + r[0];
          }
        }
      }
    }
  }

  /** The first piece of `s.split(c)` is the text before the first `c`. */
  lemma {:induction false} SplitFirst(s: string, c: char)
    ensures Split(s, c)[0] == if c in s then s[..IndexOf(s, c)] else s
    decreases |s|
  {
    if s != [] && s[0] != c {
      var t := s[1..];
      SplitFirst(t, c);
      assert s == [s[0]] + t;
      if c in s {
        assert c in t;
        assert s[..IndexOf(s, c)] == [s[0]] + t[..IndexOf(t, c)];
      }
    }
  }

  /** Splitting `a`, a `c`, then `b`, where `a` has no `c`: `a` is the first piece and the pieces of `b` follow. */
  lemma {:induction false} SplitAfterFirst(a: string, c: char, b: string)
    requires c !in a
    ensures Split(a + [c] + b, c) == [a] + Split(b, c)
    decreases |a|
  {
    var s := a + [c] + b;
    if a == [] {
      assert s[1..] == b;
    } else {
      assert s[1..] == a[1..] + [c] + b;
      SplitAfterFirst(a[1..], c, b);
      assert [a[0]] + a[1..] == a;
    }
  }

  /** The last `c` of `s` is at `k` when `s[k]` is one and none follows it; it is -1 when `s` has none. */
  lemma LastIndexOfIs(s: string, c: char, k: int)
    requires -1 <= k < |s|
    requires k >= 0 ==> s[k] == c
    requires forall j :: k < j < |s| ==> s[j] != c
    ensures LastIndexOf(s, c) == k
  {
    var l := LastIndexOf(s, c);
    assert !(l > k);
    if k >= 0 {
      assert !(l < k);
    }
  }

  /** The last `c` of `s` seen from its tail: one past the tail's last `c`, else its first character or none. */
  lemma LastIndexOfTail(s: string, c: char)
    requires s != []
    ensures LastIndexOf(s, c) ==
      if c in s[1..] then 1 + LastIndexOf(s[1..], c) else if s[0] == c then 0 else -1
  {
    var t := s[1..];
    if c in t {
      var k := 1 + LastIndexOf(t, c);
      forall j | k < j < |s| ensures s[j] != c {
        assert s[j] == t[j - 1];
      }
      LastIndexOfIs(s, c, k);
    } else {
      forall j | 0 < j < |s| ensures s[j] != c {
        assert s[j] == t[j - 1];
      }
      LastIndexOfIs(s, c, if s[0] == c then 0 else -1);
    }
  }

  /** The last piece of `s.split(c)` in terms of the pieces of its tail. */
  lemma SplitLastStep(s: string, c: char)
    requires s != []
    ensures var r := Split(s[1..], c);
      Split(s, c)[|Split(s, c)| - 1] == if s[0] != c && |r| == 1 then [s[0]] + r[0] else r[|r| - 1]
  {
  }

  /** When the tail of `s` has a `c`, the last piece and the text after the last `c` are both the tail's. */
  lemma SplitLastTailHasSep(s: string, c: char)
    requires s != [] && c in s[1..]
    requires Split(s[1..], c)[|Split(s[1..], c)| - 1] == s[1..][LastIndexOf(s[1..], c) + 1..]
    ensures Split(s, c)[|Split(s, c)| - 1] == s[LastIndexOf(s, c) + 1..]
  {
    var t := s[1..];
    SplitLastStep(s, c);
    LastIndexOfTail(s, c);
    assert |Split(t, c)| != 1 by {
      SplitPieces(t, c);
    }
    assert s[LastIndexOf(s, c) + 1..] == t[LastIndexOf(t, c) + 1..];
  }

  /** A string without `c` is its own last piece, and nothing precedes it. */
  lemma SplitLastNoSep(s: string, c: char)
    requires c !in s
    ensures Split(s, c)[|Split(s, c)| - 1] == s[LastIndexOf(s, c) + 1..]
  {
    SplitPieces(s, c);
    assert LastIndexOf(s, c) == -1;
  }

  /** When `c` occurs only first in `s`, the last piece is the tail. */
  lemma SplitLastOnlyLeadingSep(s: string, c: char)
    requires s != [] && s[0] == c && c !in s[1..]
    ensures Split(s, c)[|Split(s, c)| - 1] == s[LastIndexOf(s, c) + 1..]
  {
    var t := s[1..];
    assert Split(t, c) == [t] by {
      SplitPieces(t, c);
    }
    assert Split(s, c) == [[], t];
    assert LastIndexOf(s, c) == 0 by {
      LastIndexOfTail(s, c);
    }
  }

  /** The last piece of `s.split(c)` (what `pop()` returns) is the text after the last `c`. */
  lemma {:induction false} SplitLast(s: string, c: char)
    ensures Split(s, c)[|Split(s, c)| - 1] == s[LastIndexOf(s, c) + 1..]
    decreases |s|
  {
    if s != [] {
      if c in s[1..] {
        SplitLast(s[1..], c);
        SplitLastTailHasSep(s, c);
      } else if s[0] == c {
        SplitLastOnlyLeadingSep(s, c);
      } else {
        assert c !in s by {
          assert s == [s[0]] + s[1..];
        }
        SplitLastNoSep(s, c);
      }
    }
  }

  function DigitChar(d: nat): (c: char)
    requires d < 10
    ensures '0' <= c <= '9' && c as int - '0' as int == d
  {
    ('0' as int + d) as char
  }

  /** `String(n)` for a natural number: its decimal digits, without leading zeros. */
  function NatString(n: nat): (r: string)
    ensures 1 <= |r| && (n >= 10 ==> |r| >= 2)
    ensures forall i :: 0 <= i < |r| ==> '0' <= r[i] <= '9'
  {
    if n < 10 then [DigitChar(n)] else NatString(n / 10) + [DigitChar(n % 10)]
  }

  /** `String(n)` for an integer. */
  function IntString(n: int): (r: string)
    ensures |r| >= 1 && (r[0] == '-' <==> n < 0)
  {
    if n < 0 then "-" + NatString(-n) else NatString(n)
  }

  /** Different numbers print differently, so comparing `String(a)` with `String(b)` compares `a` with `b`. */
  lemma {:induction false} NatStringInjective(a: nat, b: nat)
    requires NatString(a) == NatString(b)
    ensures a == b
    decreases a
  {
    var ra, rb := NatString(a), NatString(b);
    if a >= 10 && b >= 10 {
      assert ra[|ra| - 1] == rb[|rb| - 1];
      assert ra[..|ra| - 1] == NatString(a / 10);
      assert rb[..|rb| - 1] == NatString(b / 10);
      NatStringInjective(a / 10, b / 10);
    } else if a < 10 && b < 10 {
      assert ra[0] == rb[0];
    }
  }

  lemma IntStringInjective(a: int, b: int)
    requires IntString(a) == IntString(b)
    ensures a == b
  {
    if a < 0 && b < 0 {
      assert NatString(-a) == IntString(a)[1..];
      assert NatString(-b) == IntString(b)[1..];
      NatStringInjective(-a, -b);
    } else if a >= 0 && b >= 0 {
      NatStringInjective(a, b);
    }
  }

  /** `t` occurs in `s` starting at position `i`. */
  predicate OccursAt(s: string, t: string, i: int)
  {
    0 <= i <= |s| - |t| && s[i..i + |t|] == t
  }

  /** `s.includes(t)`: `t` occurs in `s` at some position. */
  predicate Includes(s: string, t: string)
  {
    exists i :: 0 <= i <= |s| - |t| && OccursAt(s, t, i)
  }

  /** `[a, b, c].join(sep)`. */
  function Join(parts: seq<string>, sep: string): (r: string)
    ensures parts == [] ==> r == ""
    ensures |parts| == 1 ==> r == parts[0]
  {
    if parts == [] then ""
    else if |parts| == 1 then parts[0]
    else parts[0] + sep + Join(parts[1..], sep)
  }

  /** Every part occurs in the joined text. */
  lemma {:induction false} JoinIncludesParts(parts: seq<string>, sep: string, k: nat)
    requires k < |parts|
    ensures Includes(Join(parts, sep), parts[k])
    decreases |parts|
  {
    var r := Join(parts, sep);
    if k == 0 {
      assert OccursAt(r, parts[0], 0);
    } else {
      JoinIncludesParts(parts[1..], sep, k - 1);
      var rest := Join(parts[1..], sep);
      assert parts[1..][k - 1] == parts[k];
      var i :| 0 <= i <= |rest| - |parts[k]| && OccursAt(rest, parts[k], i);
      var off := |parts[0]| + |sep|;
      assert r == parts[0] + sep + rest;
      assert r[off + i..off + i + |parts[k]|] == rest[i..i + |parts[k]|];
      assert OccursAt(r, parts[k], off + i);
    }
  }
}
