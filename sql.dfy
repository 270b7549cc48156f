// SET-clause builders of the dynamic UPDATE statements
// (server/models/moduleModel.js, lessonModel.js, usermodel.js, courseModel.js).
// A builder lists the entries whose value is not undefined, numbers the
// parameter of the entry at position `index` as `$<index + 2>` (`$1` is the row
// key), and passes the values of the parameter entries after the key.

module Sql {
  import opened Wrappers
  import Strings

  /** One entry of the list handed to the builder: a bound value, or `CURRENT_TIMESTAMP` written inline. */
  datatype Entry<V> = Bound(column: string, value: V) | Inline(column: string)

  /** One `column = ...` item of the SET clause. */
  datatype Assignment = Param(column: string, index: nat) | Timestamp(column: string)

  /** `Object.entries(...).filter(([_, value]) => value !== undefined)`, where `None` is undefined. */
  function Defined<V>(fields: seq<(string, Option<V>)>): (r: seq<Entry<V>>)
    ensures |r| <= |fields|
    ensures forall i :: 0 <= i < |r| ==> r[i].Bound?
  {
    if fields == [] then []
    else
      var rest := Defined(fields[1..]);
      if fields[0].1.Some? then [Bound(fields[0].0, fields[0].1.value)] + rest else rest
  }

  /** The defined entries are exactly the given fields with a value, in the same order. */
  lemma {:induction false} DefinedMembers<V>(fields: seq<(string, Option<V>)>)
    ensures forall c, v :: Bound(c, v) in Defined(fields) <==> (c, Some(v)) in fields
  {
    if fields != [] {
      DefinedMembers(fields[1..]);
      assert fields == [fields[0]] + fields[1..];
    }
  }

  /** No entry survives the filter exactly when every field is undefined. */
  lemma {:induction false} DefinedEmpty<V>(fields: seq<(string, Option<V>)>)
    ensures Defined(fields) == [] <==> forall i :: 0 <= i < |fields| ==> fields[i].1.None?
  {
    if fields != [] {
      DefinedEmpty(fields[1..]);
      assert forall i :: 1 <= i < |fields| ==> fields[i] == fields[1..][i - 1];
    }
  }

  /** `entries.map(([field, _], index) => inline ? 'field = CURRENT_TIMESTAMP' : 'field = $' + (index + 2))`. */
  function SetClause<V>(entries: seq<Entry<V>>): (r: seq<Assignment>)
    ensures |r| == |entries|
    ensures forall i :: 0 <= i < |r| ==> r[i].column == entries[i].column && (r[i].Param? <==> entries[i].Bound?)
  {
    seq(|entries|, i requires 0 <= i < |entries| =>
      if entries[i].Inline? then Timestamp(entries[i].column) else Param(entries[i].column, i + 2))
  }

  /** The values passed after the key: those of the bound entries, in order. */
  function Values<V>(entries: seq<Entry<V>>): (r: seq<V>)
    ensures |r| <= |entries|
  {
    if entries == [] then []
    else Values(entries[..|entries| - 1]) +
         (if entries[|entries| - 1].Bound? then [entries[|entries| - 1].value] else [])
  }

  /** All entries bound except possibly the last: the shape every builder here hands over. */
  predicate InlineOnlyLast<V>(entries: seq<Entry<V>>)
  {
    forall i :: 0 <= i < |entries| - 1 ==> entries[i].Bound?
  }

  lemma {:induction false} ValuesOfBound<V>(entries: seq<Entry<V>>)
    requires forall i :: 0 <= i < |entries| ==> entries[i].Bound?
    ensures |Values(entries)| == |entries|
    ensures forall i :: 0 <= i < |entries| ==> Values(entries)[i] == entries[i].value
  {
    if entries != [] {
      ValuesOfBound(entries[..|entries| - 1]);
    }
  }

  /**
   * When only the last entry may be inline, the placeholders are `$2, $3, ...` in entry
   * order, the value at position `k` is the one placeholder `$<k + 2>` stands for, and
   * any entry past the values is the inline timestamp.
   */
  lemma PlaceholdersMatchValues<V>(entries: seq<Entry<V>>)
    requires InlineOnlyLast(entries)
    ensures forall k :: 0 <= k < |Values(entries)| ==>
      SetClause(entries)[k] == Param(entries[k].column, k + 2) && Values(entries)[k] == entries[k].value
    ensures forall i :: |Values(entries)| <= i < |entries| ==> SetClause(entries)[i].Timestamp?
  {
    if entries != [] {
      var n := |entries| - 1;
      var init := entries[..n];
      ValuesOfBound(init);
      assert entries == init + [entries[n]];
      assert Values(entries) == Values(init) + (if entries[n].Bound? then [entries[n].value] else []);
    }
  }

  // ---------------------------------------------------------------------------
  // Text bound to an integer parameter

  const MinInt4 := -0x8000_0000
  const MaxInt4 := 0x7FFF_FFFF

  /** The white space PostgreSQL skips around an integer literal. */
  predicate PgSpace(c: char)
  {
    c == ' ' || c == '\t' || c == '\n' || c == '\r' || c == 11 as char || c == 12 as char
  }

  function StripStart(s: string): string
  {
    if s != [] && PgSpace(s[0]) then StripStart(s[1..]) else s
  }

  function StripEnd(s: string): string
  {
    if s != [] && PgSpace(s[|s| - 1]) then StripEnd(s[..|s| - 1]) else s
  }

  predicate AllDigits(d: string)
  {
    forall i :: 0 <= i < |d| ==> '0' <= d[i] <= '9'
  }

  /** The value of a decimal digit; the callers apply it to digits only. */
  function DigitValue(c: char): nat
  {
    if '0' <= c <= '9' then c as int - '0' as int else 0
  }

  /** The value of a run of decimal digits, leading zeros included. */
  function DigitsValue(d: string): nat
  {
    if d == [] then 0 else DigitsValue(d[..|d| - 1]) * 10 + DigitValue(d[|d| - 1])
  }

  /** An optional sign, then one or more decimal digits whose value fits 32 bits. */
  function SignedValue(t: string): (r: Option<int>)
    ensures r.Some? ==> MinInt4 <= r.value <= MaxInt4
  {
    var signed := t != [] && (t[0] == '-' || t[0] == '+');
    var body := if signed then t[1..] else t;
    if body == [] || !AllDigits(body) then None
    else
      var v: int := if signed && t[0] == '-' then -(DigitsValue(body) as int) else DigitsValue(body);
      if MinInt4 <= v <= MaxInt4 then Some(v) else None
  }

  /**
   * How PostgreSQL reads a text parameter bound where an `integer` is expected (`WHERE
   * r.user_id = $1`): white space around it, an optional sign, then one or more decimal
   * digits whose value fits 32 bits; anything else is an error the query throws (None).
   */
  function PgInteger(s: string): (r: Option<int>)
    ensures r.Some? ==> MinInt4 <= r.value <= MaxInt4
  {
    SignedValue(StripEnd(StripStart(s)))
  }

  /** The digits `String(n)` prints have the value `n`. */
  lemma {:induction false} NatStringValue(n: nat)
    ensures AllDigits(Strings.NatString(n)) && DigitsValue(Strings.NatString(n)) == n
    decreases n
  {
    var d := Strings.NatString(n);
    if n >= 10 {
      NatStringValue(n / 10);
      assert d[..|d| - 1] == Strings.NatString(n / 10);
    }
  }

  /** Text that neither starts nor ends with a blank is read as it stands. */
  lemma NoBlankEnds(t: string)
    requires t != [] && !PgSpace(t[0]) && !PgSpace(t[|t| - 1])
    ensures PgInteger(t) == SignedValue(t)
  {
    assert StripStart(t) == t;
    assert StripEnd(t) == t;
  }

  /** Text whose first character is neither a sign nor a digit is no number. */
  lemma SignedNotDigits(t: string)
    requires t != [] && t[0] != '-' && t[0] != '+' && !('0' <= t[0] <= '9')
    ensures SignedValue(t) == None
  {
    assert !AllDigits(t);
  }

  lemma SignedUnsigned(d: string)
    requires d != [] && AllDigits(d)
    ensures SignedValue(d) == if DigitsValue(d) <= MaxInt4 then Some(DigitsValue(d) as int) else None
  {
    assert '0' <= d[0] <= '9';
  }

  lemma SignedNegative(d: string)
    requires d != [] && AllDigits(d)
    ensures SignedValue("-" + d) == if MinInt4 <= -(DigitsValue(d) as int) then Some(-(DigitsValue(d) as int)) else None
  {
    assert ("-" + d)[0] == '-' && ("-" + d)[1..] == d;
  }

  /** A non-negative number prints as its digits, which PostgreSQL reads back when they fit 32 bits. */
  lemma PgReadsNat(n: int)
    requires 0 <= n
    ensures PgInteger(Strings.IntString(n)) == if n <= MaxInt4 then Some(n) else None
  {
    var d := Strings.IntString(n);
    assert d == Strings.NatString(n);
    assert PgInteger(d) == SignedValue(d) by {
      assert '0' <= d[0] <= '9' && '0' <= d[|d| - 1] <= '9';
      NoBlankEnds(d);
    }
    assert SignedValue(d) == if n <= MaxInt4 then Some(n) else None by {
      NatStringValue(n);
      SignedUnsigned(d);
    }
  }

  /** `-` followed by digits is read as the negated digits, when that fits 32 bits. */
  lemma PgReadsMinus(d: string)
    requires d != [] && AllDigits(d)
    ensures PgInteger("-" + d) == if MinInt4 <= -(DigitsValue(d) as int) then Some(-(DigitsValue(d) as int)) else None
  {
    var t := "-" + d;
    assert PgInteger(t) == SignedValue(t) by {
      assert t[0] == '-' && t[|t| - 1] == d[|d| - 1];
      NoBlankEnds(t);
    }
    SignedNegative(d);
  }

  /** A negative number prints as `-` and its magnitude, which PostgreSQL reads back when it fits 32 bits. */
  lemma PgReadsNegative(n: int)
    requires n < 0
    ensures PgInteger(Strings.IntString(n)) == if MinInt4 <= n then Some(n) else None
  {
    var m: nat := -n;
    var d := Strings.NatString(m);
    assert Strings.IntString(n) == "-" + d;
    NatStringValue(m);
    PgReadsMinus(d);
  }

  /** PostgreSQL reads back every 32-bit number that `String(n)` prints, and refuses a wider one. */
  lemma PgReadsPrinted(n: int)
    ensures PgInteger(Strings.IntString(n)) == if MinInt4 <= n <= MaxInt4 then Some(n) else None
  {
    if n < 0 {
      PgReadsNegative(n);
    } else {
      PgReadsNat(n);
    }
  }

  /** Leading zeros still name the number. */
  lemma PgReadsLeadingZeros()
    ensures PgInteger("007") == Some(7)
  {
    var t := "007";
    assert PgInteger(t) == SignedValue(t) by {
      assert t[0] == '0' && t[2] == '7';
      NoBlankEnds(t);
    }
    assert AllDigits(t);
    assert DigitsValue(t) == 7 by {
      assert t[..2] == "00" && "00"[..1] == "0" && "0"[..0] == "";
    }
    SignedUnsigned(t);
  }

  /** Surrounding blanks are skipped. */
  lemma PgReadsPadded()
    ensures PgInteger(" 7 ") == Some(7)
  {
    assert PgInteger(" 7 ") == SignedValue("7") by {
      assert StripStart(" 7 ") == "7 " by {
        assert " 7 "[1..] == "7 ";
      }
      assert StripEnd("7 ") == "7" by {
        assert "7 "[..1] == "7";
      }
    }
    assert AllDigits("7") && DigitsValue("7") == 7 by {
      assert "7"[..0] == "";
    }
    SignedUnsigned("7");
  }

  /** Text that is not a number is an error. */
  lemma PgRefusesText()
    ensures PgInteger("abc") == None && PgInteger("") == None
  {
    assert PgInteger("abc") == None by {
      assert "abc"[0] == 'a' && "abc"[2] == 'c';
      NoBlankEnds("abc");
      SignedNotDigits("abc");
    }
  }
}
