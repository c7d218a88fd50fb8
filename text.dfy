/**
 The string primitives the configuration reader is built from: the
 whitespace test behind `char::is_whitespace` and `str::trim`, the
 `is_whitespace` helper, `str::find` for a single character, and trimming.
 Strings are sequences of Unicode scalar values; indices are character
 indices (the source's byte indices always fall on the same characters,
 because every character it searches for is one byte long).
 */
module Text {

  datatype Option<T> = None | Some(value: T)

  /** The Unicode White_Space property: the characters that Rust's
      `char::is_whitespace` accepts and that `str::trim` removes. */
  predicate IsSpace(c: char)
  {
    var n := c as int;
    || (0x09 <= n <= 0x0D) || n == 0x20 || n == 0x85 || n == 0xA0
    || n == 0x1680 || (0x2000 <= n <= 0x200A) || n == 0x2028 || n == 0x2029
    || n == 0x202F || n == 0x205F || n == 0x3000
  }

  /** Every character of `s` is whitespace (vacuously so when `s` is empty). */
  ghost predicate AllSpace(s: string)
  {
    forall i :: 0 <= i < |s| ==> IsSpace(s[i])
  }

  /** `is_whitespace`: the characters of `s` are checked one by one. */
  function IsWhitespace(s: string): (r: bool)
    ensures r <==> AllSpace(s)
  {
    |s| == 0 || (IsSpace(s[0]) && IsWhitespace(s[1..]))
  }

  /** `str::find` for one character: the index of the first occurrence of `c`. */
  function Find(s: string, c: char): (r: Option<nat>)
    ensures r.None? <==> c !in s
    ensures r.Some? ==> r.value < |s| && s[r.value] == c
    ensures r.Some? ==> forall k :: 0 <= k < r.value ==> s[k] != c
  {
    if |s| == 0 then None
    else if s[0] == c then Some(0)
    else match Find(s[1..], c)
      case None => None
      case Some(i) =>
        assert s[..i + 1] == [s[0]] + s[1..][..i];
        Some(i + 1)
  }

  /** Neither end of `s` is whitespace: what `str::trim` leaves behind. */
  predicate IsTrimmed(s: string)
  {
    |s| == 0 || (!IsSpace(s[0]) && !IsSpace(s[|s| - 1]))
  }

  /** The first index at or after `from` that does not hold whitespace
      (`|s|` if there is none): where `str::trim` starts its result. */
  function SkipSpace(s: string, from: nat): (r: nat)
    requires from <= |s|
    ensures from <= r <= |s|
    ensures forall k :: from <= k < r ==> IsSpace(s[k])
    ensures r < |s| ==> !IsSpace(s[r])
    decreases |s| - from
  {
    if from < |s| && IsSpace(s[from]) then SkipSpace(s, from + 1) else from
  }

  /** The index just after the last character before `hi`, and not before
      `lo`, that does not hold whitespace (`lo` if there is none): where
      `str::trim` ends its result. */
  function SkipSpaceBack(s: string, lo: nat, hi: nat): (r: nat)
    requires lo <= hi <= |s|
    ensures lo <= r <= hi
    ensures forall k :: r <= k < hi ==> IsSpace(s[k])
    ensures r > lo ==> !IsSpace(s[r - 1])
    decreases hi
  {
    if hi > lo && IsSpace(s[hi - 1]) then SkipSpaceBack(s, lo, hi - 1) else hi
  }

  /** `r` is the slice of `s` starting at `i`, and everything of `s` before and
      after that slice is whitespace. */
  ghost predicate Margins(s: string, i: int, r: string)
  {
    && 0 <= i <= |s| - |r|
    && s[i..i + |r|] == r
    && (forall k :: 0 <= k < i ==> IsSpace(s[k]))
    && (forall k :: i + |r| <= k < |s| ==> IsSpace(s[k]))
  }

  /** `str::trim`: the slice of `s` between a whitespace prefix and a
      whitespace suffix, with neither of its own ends whitespace. */
  function Trim(s: string): (r: string)
    ensures exists i :: Margins(s, i, r)
    ensures IsTrimmed(r)
  {
    var i := SkipSpace(s, 0);
    var j := SkipSpaceBack(s, i, |s|);
    assert Margins(s, i, s[i..j]);
    s[i..j]
  }

  /** Trimming only removes characters. */
  lemma TrimChars(s: string)
    ensures forall c :: c in Trim(s) ==> c in s
  {
    var r := Trim(s);
    var i :| Margins(s, i, r);
    forall c | c in r ensures c in s {
      var k :| 0 <= k < |r| && r[k] == c;
      assert s[i + k] == c;
    }
  }

  /** A margin split of a string whose first character is not whitespace
      has an empty prefix and keeps that character. */
  lemma MarginsFirst(s: string, i: int, r: string)
    requires Margins(s, i, r) && |s| > 0 && !IsSpace(s[0])
    ensures i == 0 && |r| > 0 && r[0] == s[0]
  {
    assert s[i..i + |r|][0] == s[i];
  }

  /** A margin split of a string whose last character is not whitespace
      has an empty suffix and keeps that character. */
  lemma MarginsLast(s: string, i: int, r: string)
    requires Margins(s, i, r) && |s| > 0 && !IsSpace(s[|s| - 1])
    ensures i + |r| == |s| && |r| > 0 && r[|r| - 1] == s[|s| - 1]
  {
    assert i + |r| == |s|;
    assert |r| > 0;
    assert s[i..i + |r|][|r| - 1] == s[|s| - 1];
  }

  /** Trimming a string whose first character is not whitespace keeps that
      character in front, and likewise at the end. */
  lemma TrimKeepsEnds(s: string)
    requires |s| > 0 && (!IsSpace(s[0]) || !IsSpace(s[|s| - 1]))
    ensures |Trim(s)| > 0
    ensures !IsSpace(s[0]) ==> Trim(s)[0] == s[0]
    ensures !IsSpace(s[|s| - 1]) ==> Trim(s)[|Trim(s)| - 1] == s[|s| - 1]
  {
    var r := Trim(s);
    var i :| Margins(s, i, r);
    if !IsSpace(s[0]) { MarginsFirst(s, i, r); }
    if !IsSpace(s[|s| - 1]) { MarginsLast(s, i, r); }
  }

  /** Trimming a trimmed string changes nothing; in particular `Trim` is idempotent. */
  lemma TrimTrimmed(s: string)
    requires IsTrimmed(s)
    ensures Trim(s) == s
  {
    if |s| > 0 {
      var r := Trim(s);
      var i :| Margins(s, i, r);
      MarginsFirst(s, i, r);
      MarginsLast(s, i, r);
      assert r == s[0..|s|] == s;
    }
  }

  /** Trimming leaves nothing exactly when the string is all whitespace. */
  lemma TrimEmpty(s: string)
    ensures |Trim(s)| == 0 <==> AllSpace(s)
  {
    var r := Trim(s);
    var i :| Margins(s, i, r);
    if |r| > 0 {
      assert s[i..i + |r|][0] == s[i];
    }
  }

  /** Two margin splits of a string that both leave a trimmed middle leave
      the same middle: trimming has only one possible result. */
  lemma MarginsUnique(s: string, i: int, r: string, j: int, q: string)
    requires Margins(s, i, r) && IsTrimmed(r)
    requires Margins(s, j, q) && IsTrimmed(q)
    ensures r == q
  {
    assert |r| > 0 ==> !IsSpace(s[i]) && !IsSpace(s[i + |r| - 1]);
    assert |q| > 0 ==> !IsSpace(s[j]) && !IsSpace(s[j + |q| - 1]);
    assert |r| > 0 && |q| > 0 ==> i == j && |r| == |q|;
    assert |r| > 0 ==> |q| > 0;
    assert |q| > 0 ==> |r| > 0;
  }

  /** Trimming whitespace-padded text gives back the text, if it is trimmed. */
  lemma TrimPadded(a: string, r: string, b: string)
    requires AllSpace(a) && AllSpace(b) && IsTrimmed(r)
    ensures Trim(a + r + b) == r
  {
    var s := a + r + b;
    assert s[..|a|] == a && s[|a|..|a| + |r|] == r && s[|a| + |r|..] == b;
    assert Margins(s, |a|, r);
    var j :| Margins(s, j, Trim(s));
    MarginsUnique(s, |a|, r, j, Trim(s));
  }
}
