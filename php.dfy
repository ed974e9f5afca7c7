/**
 * The slice of PHP value semantics the package relies on: nullable values,
 * scalar attribute values with PHP truthiness and loose null comparison,
 * string interpolation of scalars, `array_unique` on lists and `implode`.
 */
module Php {

  datatype Option<T> = None | Some(value: T)

  /** A scalar as PHP stores it in a model attribute, a row cell or a column default. */
  datatype Value = VNull | VBool(b: bool) | VInt(i: int) | VStr(s: string)

  /** PHP truthiness of a string: only "" and "0" are falsy. */
  predicate TruthyString(s: string) {
    s != "" && s != "0"
  }

  /** PHP truthiness of a scalar (`if ($v)`). */
  predicate Truthy(v: Value) {
    match v
    case VNull => false
    case VBool(b) => b
    case VInt(i) => i != 0
    case VStr(s) => TruthyString(s)
  }

  /** `$v == null` under PHP 8 loose comparison. */
  predicate LooselyNull(v: Value) {
    match v
    case VNull => true
    case VBool(b) => !b
    case VInt(i) => i == 0
    case VStr(s) => s == ""
  }

  /** A loosely-null value is never truthy; "0" is the one falsy value that is not loosely null. */
  lemma LooselyNullIsFalsy(v: Value)
    ensures LooselyNull(v) ==> !Truthy(v)
    ensures v == VStr("0") ==> !Truthy(v) && !LooselyNull(v)
  {
  }

  // ---------------------------------------------------------------------
  // Decimal rendering of integers (string interpolation of an int)

  predicate IsDigit(c: char) {
    '0' <= c <= '9'
  }

  function DigitChar(d: nat): (c: char)
    requires d < 10
    ensures IsDigit(c) && c as int - '0' as int == d
  {
    "0123456789"[d]
  }

  function NatToString(n: nat): (s: string)
    ensures |s| >= 1
    ensures forall k :: 0 <= k < |s| ==> IsDigit(s[k])
    decreases n
  {
    if n < 10 then [DigitChar(n)] else NatToString(n / 10) + [DigitChar(n % 10)]
  }

  /** `"{$i}"` for an int: optional minus sign, then decimal digits. */
  function IntToString(i: int): (s: string)
    ensures |s| >= 1 && IsDigit(s[|s| - 1])
  {
    if i < 0 then "-" + NatToString(-i) else NatToString(i)
  }

  function ParseNat(s: string): nat
    decreases |s|
  {
    if s == [] then 0
    else
      var c := s[|s| - 1];
      ParseNat(s[..|s| - 1]) * 10 + (if IsDigit(c) then c as int - '0' as int else 0)
  }

  function ParseInt(s: string): int {
    if |s| > 0 && s[0] == '-' then 0 - ParseNat(s[1..]) else ParseNat(s)
  }

  lemma {:induction false} NatToStringRoundTrip(n: nat)
    ensures ParseNat(NatToString(n)) == n
    decreases n
  {
    if n >= 10 {
      var s := NatToString(n);
      assert s[..|s| - 1] == NatToString(n / 10);
      NatToStringRoundTrip(n / 10);
    }
  }

  lemma NegativeRoundTrip(n: nat)
    requires n > 0
    ensures ParseInt(IntToString(0 - n)) == 0 - n
  {
    var t := NatToString(n);
    var s := "-" + t;
    assert IntToString(0 - n) == s;
    assert s[1..] == t;
    assert ParseInt(s) == 0 - ParseNat(t);
    NatToStringRoundTrip(n);
  }

  lemma NonNegativeRoundTrip(i: int)
    requires i >= 0
    ensures ParseInt(IntToString(i)) == i
  {
    assert IsDigit(NatToString(i)[0]);
    NatToStringRoundTrip(i);
  }

  /** Reading back an interpolated int gives the int: the rendering loses nothing. */
  lemma {:induction false} IntToStringRoundTrip(i: int)
    ensures ParseInt(IntToString(i)) == i
  {
    if i < 0 {
      NegativeRoundTrip(-i);
    } else {
      NonNegativeRoundTrip(i);
    }
  }

  /** `"{$v}"`: how PHP interpolates a scalar into a string. */
  function Interpolate(v: Value): string {
    match v
    case VNull => ""
    case VBool(b) => if b then "1" else ""
    case VInt(i) => IntToString(i)
    case VStr(s) => s
  }

  // ---------------------------------------------------------------------
  // array_unique on a list: keep the first occurrence of each value

  predicate NoDups<T(==)>(s: seq<T>) {
    forall i, j :: 0 <= i < j < |s| ==> s[i] != s[j]
  }

  function Dedup<T(==)>(s: seq<T>): seq<T>
    decreases |s|
  {
    if s == [] then []
    else
      var init := s[..|s| - 1];
      if s[|s| - 1] in init then Dedup(init) else Dedup(init) + [s[|s| - 1]]
  }

  lemma DedupSnoc<T>(s: seq<T>, x: T)
    ensures Dedup(s + [x]) == if x in s then Dedup(s) else Dedup(s) + [x]
  {
    assert (s + [x])[..|s|] == s;
  }

  lemma {:induction false} DedupMember<T>(s: seq<T>, x: T)
    ensures x in Dedup(s) <==> x in s
    decreases |s|
  {
    if s != [] {
      var init := s[..|s| - 1];
      assert s == init + [s[|s| - 1]];
      DedupMember(init, x);
    }
  }

  lemma DedupElements<T>(s: seq<T>)
    ensures forall x :: x in Dedup(s) <==> x in s
  {
    forall x ensures x in Dedup(s) <==> x in s {
      DedupMember(s, x);
    }
  }

  lemma {:induction false} DedupNoDups<T>(s: seq<T>)
    ensures NoDups(Dedup(s))
    decreases |s|
  {
    if s != [] {
      var init := s[..|s| - 1];
      DedupNoDups(init);
      DedupElements(init);
    }
  }

  lemma {:induction false} DedupOfNoDups<T>(s: seq<T>)
    requires NoDups(s)
    ensures Dedup(s) == s
    decreases |s|
  {
    if s != [] {
      var init := s[..|s| - 1];
      assert s == init + [s[|s| - 1]];
      DedupOfNoDups(init);
    }
  }

  /** Position of the first occurrence of `x` in `s`. */
  function FirstIndex<T(==)>(s: seq<T>, x: T): (k: nat)
    requires x in s
    ensures k < |s| && s[k] == x && x !in s[..k]
  {
    if s[0] == x then 0 else
      var k := FirstIndex(s[1..], x);
      assert s[..k + 1] == [s[0]] + s[1..][..k];
      k + 1
  }

  lemma FirstIndexInPrefix<T>(s: seq<T>, t: seq<T>, x: T)
    requires x in s
    ensures FirstIndex(s + t, x) == FirstIndex(s, x)
  {
    if s[0] != x {
      assert s == [s[0]] + s[1..];
      assert (s + t)[1..] == s[1..] + t;
      FirstIndexInPrefix(s[1..], t, x);
    }
  }

  /**
   * What array_unique promises for a list: the result has no duplicates, holds
   * exactly the values of the input, and lists them in the order of their first
   * occurrence.
   */
  lemma {:induction false} DedupKeepsFirstOccurrences<T>(s: seq<T>)
    ensures NoDups(Dedup(s))
    ensures forall x :: x in Dedup(s) <==> x in s
    ensures forall i, j :: 0 <= i < j < |Dedup(s)| ==>
              FirstIndex(s, Dedup(s)[i]) < FirstIndex(s, Dedup(s)[j])
    decreases |s|
  {
    DedupNoDups(s);
    DedupElements(s);
    if s != [] {
      var init := s[..|s| - 1];
      var x := s[|s| - 1];
      assert s == init + [x];
      DedupKeepsFirstOccurrences(init);
      var d := Dedup(init);
      forall y | y in d
        ensures FirstIndex(s, y) == FirstIndex(init, y)
      {
        DedupMember(init, y);
        FirstIndexInPrefix(init, [x], y);
      }
      if x !in init {
        assert FirstIndex(s, x) == |s| - 1;
        assert Dedup(s) == d + [x];
        forall i, j | 0 <= i < j < |Dedup(s)|
          ensures FirstIndex(s, Dedup(s)[i]) < FirstIndex(s, Dedup(s)[j])
        {
          assert Dedup(s)[i] == d[i];
          if j < |d| {
            assert Dedup(s)[j] == d[j];
          }
        }
      }
    }
  }

  /** Deduplicating a prefix first changes nothing. */
  lemma {:induction false} DedupAppendDedup<T>(s: seq<T>, t: seq<T>)
    ensures Dedup(Dedup(s) + t) == Dedup(s + t)
    decreases |t|
  {
    if t == [] {
      assert Dedup(s) + t == Dedup(s) && s + t == s;
      DedupNoDups(s);
      DedupOfNoDups(Dedup(s));
    } else {
      var init := t[..|t| - 1];
      var x := t[|t| - 1];
      assert t == init + [x];
      DedupAppendDedup(s, init);
      assert Dedup(s) + t == (Dedup(s) + init) + [x];
      assert s + t == (s + init) + [x];
      DedupSnoc(Dedup(s) + init, x);
      DedupSnoc(s + init, x);
      DedupMember(s, x);
    }
  }

  /** Appending values already present changes nothing. */
  lemma {:induction false} DedupAbsorb<T>(s: seq<T>, t: seq<T>)
    requires forall x :: x in t ==> x in s
    ensures Dedup(s + t) == Dedup(s)
    decreases |t|
  {
    if t == [] {
      assert s + t == s;
    } else {
      var init := t[..|t| - 1];
      var x := t[|t| - 1];
      assert t == init + [x];
      DedupAbsorb(s, init);
      assert s + t == (s + init) + [x];
      DedupSnoc(s + init, x);
    }
  }

  /** Running an append-then-`array_unique` step twice gives what running it once gives. */
  lemma AppendDedupIdempotent<T>(s: seq<T>, t: seq<T>)
    ensures Dedup(Dedup(s + t) + t) == Dedup(s + t)
  {
    DedupAppendDedup(s + t, t);
    DedupAbsorb(s + t, t);
    assert (s + t) + t == s + t + t;
  }

  // ---------------------------------------------------------------------
  // implode

  /** `implode($sep, $parts)`. */
  function Join(parts: seq<string>, sep: string): string
    decreases |parts|
  {
    if parts == [] then ""
    else if |parts| == 1 then parts[0]
    else parts[0] + sep + Join(parts[1..], sep)
  }
}
