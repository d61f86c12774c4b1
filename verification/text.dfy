/**
  Strings as the bot handles them: ASCII case mapping, Python's substring test
  `k in s`, and `sep.join(parts)`.
*/
module Text {

  /** ASCII lower-casing of one character; every other character is left alone. */
  function LowerChar(c: char): char
  {
    if 'A' <= c <= 'Z' then (c as int - 'A' as int + 'a' as int) as char else c
  }

  /** ASCII upper-casing of one character; every other character is left alone. */
  function UpperChar(c: char): char
  {
    if 'a' <= c <= 'z' then (c as int - 'a' as int + 'A' as int) as char else c
  }

  /** `s.lower()`, restricted to ASCII letters. */
  function Lower(s: string): string
  {
    seq(|s|, i requires 0 <= i < |s| => LowerChar(s[i]))
  }

  /** `s.upper()`, restricted to ASCII letters. */
  function Upper(s: string): string
  {
    seq(|s|, i requires 0 <= i < |s| => UpperChar(s[i]))
  }

  /** Lower-cases every string of a keyword list, as the filter does with its configuration. */
  function LowerAll(ks: seq<string>): (r: seq<string>)
    ensures |r| == |ks|
  {
    seq(|ks|, j requires 0 <= j < |ks| => Lower(ks[j]))
  }

  /** Upper-cases every string of a keyword list. */
  function UpperAll(ks: seq<string>): (r: seq<string>)
    ensures |r| == |ks|
  {
    seq(|ks|, j requires 0 <= j < |ks| => Upper(ks[j]))
  }

  /** `k` sits in `s` starting at position `i`. */
  predicate OccursAt(s: string, k: string, i: nat)
  {
    i + |k| <= |s| && s[i..i + |k|] == k
  }

  /** Python's `k in s` on strings: `k` is a contiguous substring of `s`. */
  predicate Contains(s: string, k: string)
  {
    exists i: nat :: i <= |s| && OccursAt(s, k, i)
  }

  /** `any(k in s for k in ks)`. */
  predicate ContainsAny(s: string, ks: seq<string>)
  {
    exists j :: 0 <= j < |ks| && Contains(s, ks[j])
  }

  /**
    Lower-casing forgets case: upper-casing first changes nothing, and
    lower-casing twice is lower-casing once.
  */
  lemma {:induction false} LowerForgetsCase(s: string)
    ensures Lower(Upper(s)) == Lower(s)
    ensures Lower(s) == Lower(Lower(s))
  {
    forall i | 0 <= i < |s|
      ensures LowerChar(UpperChar(s[i])) == LowerChar(s[i])
    {
    }
  }

  /** The empty keyword is contained in every text. */
  lemma EmptyKeywordContained(s: string)
    ensures Contains(s, "")
  {
    assert OccursAt(s, "", 0);
  }

  /** Lower-casing commutes with taking a slice. */
  lemma LowerSlice(s: string, i: nat, j: nat)
    requires i <= j <= |s|
    ensures Lower(s)[i..j] == Lower(s[i..j])
  {
    assert |Lower(s)[i..j]| == |Lower(s[i..j])|;
    forall q | 0 <= q < j - i
      ensures Lower(s)[i..j][q] == Lower(s[i..j])[q]
    {
      assert s[i..j][q] == s[i + q];
    }
  }

  /** A keyword contained in a text is still contained once both are lower-cased. */
  lemma {:induction false} ContainsLower(s: string, k: string)
    requires Contains(s, k)
    ensures Contains(Lower(s), Lower(k))
  {
    var i: nat :| i <= |s| && OccursAt(s, k, i);
    LowerSlice(s, i, i + |k|);
    assert OccursAt(Lower(s), Lower(k), i);
  }

  /** A non-empty keyword whose first character never occurs in a text is not contained in it. */
  lemma AbsentFirstCharNotContained(s: string, k: string)
    requires |k| > 0
    requires forall j :: 0 <= j < |s| ==> s[j] != k[0]
    ensures !Contains(s, k)
  {
    forall i: nat | i <= |s|
      ensures !OccursAt(s, k, i)
    {
      if i + |k| <= |s| {
        assert s[i..i + |k|][0] == s[i];
      }
    }
  }

  /**
    The substring test as a scan: try every start position, comparing
    character by character.
  */
  method FindSubstring(s: string, k: string) returns (found: bool)
    ensures found <==> Contains(s, k)
  {
    if |k| > |s| {
      return false;
    }
    var i := 0;
    while i <= |s| - |k|
      invariant 0 <= i <= |s| - |k| + 1
      invariant forall j: nat :: j < i ==> !OccursAt(s, k, j)
    {
      var m := 0;
      while m < |k| && s[i + m] == k[m]
        invariant 0 <= m <= |k|
        invariant forall q :: 0 <= q < m ==> s[i + q] == k[q]
      {
        m := m + 1;
      }
      if m == |k| {
        assert s[i..i + |k|] == k;
        assert OccursAt(s, k, i);
        return true;
      }
      assert s[i..i + |k|][m] != k[m];
      i := i + 1;
    }
    return false;
  }

  /** `any(k in s for k in ks)`, evaluated left to right with an early stop. */
  method FindAny(s: string, ks: seq<string>) returns (found: bool)
    ensures found <==> ContainsAny(s, ks)
  {
    var j := 0;
    while j < |ks|
      invariant 0 <= j <= |ks|
      invariant forall q :: 0 <= q < j ==> !Contains(s, ks[q])
    {
      found := FindSubstring(s, ks[j]);
      if found {
        return true;
      }
      j := j + 1;
    }
    return false;
  }

  /** The total length of the parts. */
  function TotalLength(parts: seq<string>): nat
  {
    if |parts| == 0 then 0 else |parts[0]| + TotalLength(parts[1..])
  }

  /** Where part `j` starts in `sep.join(parts)`: each earlier part and its separator come first. */
  function Offset(parts: seq<string>, sep: string, j: nat): nat
    requires j <= |parts|
  {
    if j == 0 then 0 else |parts[0]| + |sep| + Offset(parts[1..], sep, j - 1)
  }

  /**
    `r` is the parts in order, with `sep` between consecutive parts and
    nothing else: each part and each separator sits at its offset, and the
    lengths add up to `|r|`.
  */
  ghost predicate IsJoinOf(r: string, parts: seq<string>, sep: string)
  {
    && (|parts| == 0 ==> r == "")
    && (|parts| > 0 ==> |r| == TotalLength(parts) + (|parts| - 1) * |sep|)
    && (forall j :: 0 <= j < |parts| ==> OccursAt(r, parts[j], Offset(parts, sep, j)))
    && (forall j :: 0 <= j < |parts| - 1 ==> OccursAt(r, sep, Offset(parts, sep, j) + |parts[j]|))
  }

  /** An occurrence in `b` is an occurrence in `a + b`, shifted by `|a|`. */
  lemma OccursAtAfter(a: string, b: string, k: string, i: nat)
    requires OccursAt(b, k, i)
    ensures OccursAt(a + b, k, |a| + i)
  {
    assert (a + b)[|a| + i..|a| + i + |k|] == b[i..i + |k|];
  }

  /** Offsets into the join of the later parts, shifted past the first part and its separator. */
  lemma OffsetShift(parts: seq<string>, sep: string, j: nat)
    requires 1 <= j <= |parts|
    ensures Offset(parts, sep, j) == |parts[0] + sep| + Offset(parts[1..], sep, j - 1)
  {
  }

  /** Each part sits at its offset once the first part and a separator are put in front. */
  lemma JoinStepParts(parts: seq<string>, sep: string, rest: string)
    requires |parts| >= 2
    requires forall j :: 0 <= j < |parts| - 1 ==> OccursAt(rest, parts[1..][j], Offset(parts[1..], sep, j))
    ensures forall j :: 0 <= j < |parts| ==> OccursAt(parts[0] + sep + rest, parts[j], Offset(parts, sep, j))
  {
    var head := parts[0] + sep;
    assert (head + rest)[0..|parts[0]|] == parts[0];
    forall j | 1 <= j < |parts|
      ensures OccursAt(head + rest, parts[j], Offset(parts, sep, j))
    {
      assert parts[1..][j - 1] == parts[j];
      OccursAtAfter(head, rest, parts[j], Offset(parts[1..], sep, j - 1));
      OffsetShift(parts, sep, j);
    }
  }

  /** Each separator sits after its part once the first part and a separator are put in front. */
  lemma JoinStepSeparators(parts: seq<string>, sep: string, rest: string)
    requires |parts| >= 2
    requires forall j :: 0 <= j < |parts| - 2 ==> OccursAt(rest, sep, Offset(parts[1..], sep, j) + |parts[1..][j]|)
    ensures forall j :: 0 <= j < |parts| - 1 ==> OccursAt(parts[0] + sep + rest, sep, Offset(parts, sep, j) + |parts[j]|)
  {
    var head := parts[0] + sep;
    assert (head + rest)[|parts[0]|..|parts[0]| + |sep|] == sep;
    forall j | 1 <= j < |parts| - 1
      ensures OccursAt(head + rest, sep, Offset(parts, sep, j) + |parts[j]|)
    {
      assert parts[1..][j - 1] == parts[j];
      OccursAtAfter(head, rest, sep, Offset(parts[1..], sep, j - 1) + |parts[j]|);
      OffsetShift(parts, sep, j);
    }
  }

  /** Putting the first part and a separator before the join of the rest joins all parts. */
  lemma JoinStep(parts: seq<string>, sep: string, rest: string)
    requires |parts| >= 2
    requires IsJoinOf(rest, parts[1..], sep)
    ensures IsJoinOf(parts[0] + sep + rest, parts, sep)
  {
    JoinStepParts(parts, sep, rest);
    JoinStepSeparators(parts, sep, rest);
    var n := |parts|;
    assert (n - 2) * |sep| + |sep| == (n - 1) * |sep|;
    assert |parts[0] + sep + rest| == |parts[0]| + |sep| + TotalLength(parts[1..]) + (n - 2) * |sep|;
  }

  /** `sep.join(parts)`. */
  function Join(parts: seq<string>, sep: string): (r: string)
    ensures IsJoinOf(r, parts, sep)
    ensures forall j :: 0 <= j < |parts| ==> Contains(r, parts[j])
  {
    if |parts| == 0 then ""
    else if |parts| == 1 then
      assert parts[0][0..|parts[0]|] == parts[0];
      assert OccursAt(parts[0], parts[0], 0);
      parts[0]
    else
      var rest := Join(parts[1..], sep);
      JoinStep(parts, sep, rest);
      parts[0] + sep + rest
  }
}
