/*
 * The few Python `str` builtins the query handling relies on:
 * `str.strip()` with no argument, `str.replace(old, new)` and `str(n)`
 * for a natural number.
 */
module PyStr {

  /** Python's `str.isspace()` for one character (the Unicode whitespace
      set that `str.strip()` with no argument removes). */
  predicate IsSpace(c: char) {
    var n := c as int;
    (0x09 <= n <= 0x0D) || (0x1C <= n <= 0x20) || n == 0x85 || n == 0xA0 ||
    n == 0x1680 || (0x2000 <= n <= 0x200A) || n == 0x2028 || n == 0x2029 ||
    n == 0x202F || n == 0x205F || n == 0x3000
  }

  /** `s.lstrip()`: the longest suffix of `s` that does not start with whitespace. */
  function StripLeading(s: string): (r: string)
    ensures |r| <= |s| && r == s[|s| - |r|..]
    ensures r == [] || !IsSpace(r[0])
    ensures forall k :: 0 <= k < |s| - |r| ==> IsSpace(s[k])
    decreases |s|
  {
    if s != [] && IsSpace(s[0]) then StripLeading(s[1..]) else s
  }

  /** `s.rstrip()`: the longest prefix of `s` that does not end with whitespace. */
  function StripTrailing(s: string): (r: string)
    ensures |r| <= |s| && r == s[..|r|]
    ensures r == [] || !IsSpace(r[|r| - 1])
    ensures forall k :: |r| <= k < |s| ==> IsSpace(s[k])
    decreases |s|
  {
    if s != [] && IsSpace(s[|s| - 1]) then StripTrailing(s[..|s| - 1]) else s
  }

  /** `s.strip()`: whitespace removed from both ends and nowhere else. */
  function Strip(s: string): (r: string)
    ensures r == [] || (!IsSpace(r[0]) && !IsSpace(r[|r| - 1]))
    ensures var a := |s| - |StripLeading(s)|;
      a + |r| <= |s| && r == s[a..a + |r|] &&
      (forall k :: 0 <= k < a ==> IsSpace(s[k])) &&
      (forall k :: a + |r| <= k < |s| ==> IsSpace(s[k]))
  {
    StripTrailing(StripLeading(s))
  }

  /** Stripping twice is stripping once. */
  lemma StripIdempotent(s: string)
    ensures Strip(Strip(s)) == Strip(s)
  {
    var x := Strip(s);
    assert StripLeading(x) == x by {
      if x != [] { assert !IsSpace(x[0]); }
    }
    assert StripTrailing(x) == x by {
      if x != [] { assert !IsSpace(x[|x| - 1]); }
    }
  }

  /** `pat` occurs in `s` starting at index `i`. */
  predicate OccursAt(s: string, pat: string, i: nat) {
    i + |pat| <= |s| && s[i..i + |pat|] == pat
  }

  /** `s.replace(pat, rep)` for a non-empty `pat`: every occurrence found by
      a left-to-right scan that resumes after each replaced occurrence. */
  function ReplaceAll(s: string, pat: string, rep: string): (r: string)
    requires |pat| > 0
    decreases |s|
  {
    if |s| < |pat| then s
    else if s[..|pat|] == pat then rep + ReplaceAll(s[|pat|..], pat, rep)
    else [s[0]] + ReplaceAll(s[1..], pat, rep)
  }

  /** Replacing a pattern that does not occur leaves the string as it is. */
  lemma {:induction false} ReplaceAllAbsent(s: string, pat: string, rep: string)
    requires |pat| > 0
    requires forall i: nat :: !OccursAt(s, pat, i)
    ensures ReplaceAll(s, pat, rep) == s
    decreases |s|
  {
    if |s| >= |pat| {
      assert !OccursAt(s, pat, 0);
      forall i: nat ensures !OccursAt(s[1..], pat, i) {
        assert !OccursAt(s, pat, i + 1);
        if i + |pat| <= |s| - 1 {
          assert s[1..][i..i + |pat|] == s[i + 1..i + 1 + |pat|];
        }
      }
      ReplaceAllAbsent(s[1..], pat, rep);
    }
  }

  /** Replacing a pattern by itself leaves the string as it is. */
  lemma {:induction false} ReplaceAllSelf(s: string, pat: string)
    requires |pat| > 0
    ensures ReplaceAll(s, pat, pat) == s
    decreases |s|
  {
    if |s| >= |pat| {
      if s[..|pat|] == pat {
        ReplaceAllSelf(s[|pat|..], pat);
        assert s == s[..|pat|] + s[|pat|..];
      } else {
        ReplaceAllSelf(s[1..], pat);
        assert s == [s[0]] + s[1..];
      }
    }
  }

  /** A string that consists of the pattern alone becomes the replacement. */
  lemma ReplaceAllWhole(pat: string, rep: string)
    requires |pat| > 0
    ensures ReplaceAll(pat, pat, rep) == rep
  {
    assert pat[..|pat|] == pat;
    assert ReplaceAll(pat[|pat|..], pat, rep) == [];
  }

  /** A prefix that does not contain the pattern's first character is copied
      unchanged. */
  lemma ReplaceAllPrefix(pre: string, s: string, pat: string, rep: string)
    requires |pat| > 0
    requires pat[0] !in pre
    ensures ReplaceAll(pre + s, pat, rep) == pre + ReplaceAll(s, pat, rep)
  {
    NoFirstChar(pre, s, pat);
    ReplaceAllUpTo(pre, s, pat, rep);
  }

  /** An occurrence at the front is replaced, and the scan continues right
      behind it. */
  lemma ReplaceAllFront(s: string, pat: string, rep: string)
    requires |pat| > 0
    ensures ReplaceAll(pat + s, pat, rep) == rep + ReplaceAll(s, pat, rep)
  {
    var t := pat + s;
    assert t[..|pat|] == pat;
    assert t[|pat|..] == s;
  }

  /** `sep.join(pieces)`. */
  function JoinWith(pieces: seq<string>, sep: string): string
    decreases |pieces|
  {
    if pieces == [] then []
    else if |pieces| == 1 then pieces[0]
    else pieces[0] + sep + JoinWith(pieces[1..], sep)
  }

  /** Two pieces, each followed by the separator. */
  lemma JoinWithTwo(a: string, b: string, sep: string)
    ensures JoinWith([a, b, []], sep) == a + sep + b + sep
  {
    var ps := [a, b, []];
    assert ps[1..] == [b, []] && ps[1..][1..] == [[]];
    assert JoinWith([[]], sep) == [];
    assert JoinWith([b, []], sep) == b + sep + [];
    assert b + sep + [] == b + sep;
  }

  /** No occurrence of `pat` in `s` starts before index `n`. */
  predicate NoOccurrenceBefore(s: string, pat: string, n: nat) {
    forall i: nat :: i < n ==> !OccursAt(s, pat, i)
  }

  /** A prefix in which no occurrence starts is copied unchanged, whatever
      characters it holds, and the replacement continues behind it. */
  lemma {:induction false} ReplaceAllUpTo(pre: string, s: string, pat: string, rep: string)
    requires |pat| > 0
    requires NoOccurrenceBefore(pre + s, pat, |pre|)
    ensures ReplaceAll(pre + s, pat, rep) == pre + ReplaceAll(s, pat, rep)
    decreases |pre|
  {
    var t := pre + s;
    if pre == [] {
      assert t == s;
    } else if |t| < |pat| {
      ReplaceAllShort(t, pat, rep);
      ReplaceAllShort(s, pat, rep);
    } else {
      assert t[..|pat|] != pat by { assert !OccursAt(t, pat, 0); }
      assert t[1..] == pre[1..] + s;
      NoOccurrenceTail(t, pat, |pre|);
      ReplaceAllUpTo(pre[1..], s, pat, rep);
      assert pre == [pre[0]] + pre[1..];
    }
  }

  /** Dropping the first character shifts the occurrence-free prefix. */
  lemma NoOccurrenceTail(t: string, pat: string, n: nat)
    requires 0 < n <= |t| && NoOccurrenceBefore(t, pat, n)
    ensures NoOccurrenceBefore(t[1..], pat, n - 1)
  {
    forall i: nat | i < n - 1 ensures !OccursAt(t[1..], pat, i) {
      assert !OccursAt(t, pat, i + 1);
      if i + |pat| <= |t| - 1 {
        assert t[1..][i..i + |pat|] == t[i + 1..i + 1 + |pat|];
      }
    }
  }

  /** Text appended behind `s` adds no occurrence starting before `n`, as
      long as every such occurrence would end inside `s`. */
  lemma NoOccurrenceExtend(s: string, x: string, pat: string, n: nat)
    requires n + |pat| <= |s| + 1 && NoOccurrenceBefore(s, pat, n)
    ensures NoOccurrenceBefore(s + x, pat, n)
  {
    forall i: nat | i < n ensures !OccursAt(s + x, pat, i) {
      assert !OccursAt(s, pat, i);
      assert (s + x)[i..i + |pat|] == s[i..i + |pat|];
    }
  }

  /** A prefix without the pattern's first character holds no occurrence. */
  lemma NoFirstChar(pre: string, s: string, pat: string)
    requires |pat| > 0 && pat[0] !in pre
    ensures NoOccurrenceBefore(pre + s, pat, |pre|)
  {
    forall i: nat | i < |pre| ensures !OccursAt(pre + s, pat, i) {
      if i + |pat| <= |pre + s| {
        assert (pre + s)[i..i + |pat|][0] == pre[i] != pat[0];
      }
    }
  }

  /** The pieces `s.split(pat)` returns: no occurrence starts inside a piece
      (counting the separator behind it), and none at all in the last one. */
  predicate SplitPieces(pieces: seq<string>, pat: string) {
    (forall k :: 0 <= k < |pieces| - 1 ==> NoOccurrenceBefore(pieces[k] + pat, pat, |pieces[k]|)) &&
    (pieces != [] ==> NoOccurrenceBefore(pieces[|pieces| - 1], pat, |pieces[|pieces| - 1]|))
  }

  /** Every occurrence is replaced: the pieces of a split, joined by the
      pattern, come out joined by the replacement (Python's
      `s.replace(p, r) == r.join(s.split(p))`). */
  lemma {:induction false} ReplaceAllJoin(pieces: seq<string>, pat: string, rep: string)
    requires |pat| > 0 && SplitPieces(pieces, pat)
    ensures ReplaceAll(JoinWith(pieces, pat), pat, rep) == JoinWith(pieces, rep)
    decreases |pieces|
  {
    if pieces == [] {
      ReplaceAllShort([], pat, rep);
    } else if |pieces| == 1 {
      var p := pieces[0];
      assert p + [] == p;
      ReplaceAllUpTo(p, [], pat, rep);
      ReplaceAllShort([], pat, rep);
    } else {
      var p := pieces[0];
      var rest := JoinWith(pieces[1..], pat);
      assert p + pat + rest == p + (pat + rest);
      NoOccurrenceExtend(p + pat, rest, pat, |p|);
      ReplaceAllUpTo(p, pat + rest, pat, rep);
      ReplaceAllFront(rest, pat, rep);
      assert SplitPieces(pieces[1..], pat) by {
        assert forall k :: 0 <= k < |pieces| - 2 ==> pieces[1..][k] == pieces[k + 1];
      }
      ReplaceAllJoin(pieces[1..], pat, rep);
      assert p + (rep + JoinWith(pieces[1..], rep)) == p + rep + JoinWith(pieces[1..], rep);
    }
  }

  /** A '{' that starts no occurrence does not stop the replacement:
      `"{} {c}".replace("{c}", "A")` is `"{} A"`. */
  lemma ReplaceAllStrayBrace()
    ensures ReplaceAll("{} {c}", "{c}", "A") == "{} A"
  {
    var pre, pat := "{} ", "{c}";
    assert "{} {c}" == pre + pat;
    forall i: nat | i < |pre| ensures !OccursAt(pre + pat, pat, i) {
      assert (pre + pat)[i + 1] != pat[1];
    }
    ReplaceAllUpTo(pre, pat, pat, "A");
    ReplaceAllWhole(pat, "A");
  }

  /** A string shorter than the pattern is left as it is. */
  lemma ReplaceAllShort(s: string, pat: string, rep: string)
    requires |pat| > 0 && |s| < |pat|
    ensures ReplaceAll(s, pat, rep) == s
  {
  }

  /** The decimal digit for `d`. */
  function DigitChar(d: nat): (c: char)
    requires d < 10
    ensures '0' <= c <= '9' && c as int - '0' as int == d
  {
    (('0' as int) + d) as char
  }

  /** `str(n)` for a natural number: its decimal digits, most significant first. */
  function NatToDecimal(n: nat): (r: string)
    ensures |r| >= 1
    ensures forall k :: 0 <= k < |r| ==> '0' <= r[k] <= '9'
    ensures (r[0] == '0') == (n == 0)
    decreases n
  {
    if n < 10 then [DigitChar(n)] else NatToDecimal(n / 10) + [DigitChar(n % 10)]
  }

  /** Reading the digits back as a number gives the original number. */
  function DecimalValue(s: string): nat
    requires forall k :: 0 <= k < |s| ==> '0' <= s[k] <= '9'
  {
    if s == [] then 0 else 10 * DecimalValue(s[..|s| - 1]) + (s[|s| - 1] as int - '0' as int)
  }

  lemma {:induction false} DecimalRoundTrip(n: nat)
    ensures DecimalValue(NatToDecimal(n)) == n
    decreases n
  {
    if n >= 10 {
      DecimalRoundTrip(n / 10);
      var r := NatToDecimal(n);
      assert r[..|r| - 1] == NatToDecimal(n / 10);
    }
  }
}
