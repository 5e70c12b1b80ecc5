/*
 * The query template handling of app.py: the placeholder check applied on
 * submit, `clean_query`, the placeholder names found with `re.findall`, and
 * the loop that substitutes a row value for every placeholder. Each regular
 * expression is written out as an explicit left-to-right scanner over the
 * characters of the query.
 */
module QueryTemplate {
  import opened PyStr

  // ---------------------------------------------------------------------
  // The placeholder check: re.search(r'\{.*\}', query)
  // ---------------------------------------------------------------------

  /** A one-pass automaton for `\{.*\}`: `open` records that a '{' has been
      seen on the current line. '.' matches anything but '\n', so a newline
      forgets an open brace, and any later '}' on the same line completes
      the match. */
  function SearchBraces(s: string, open: bool): bool
    decreases |s|
  {
    if s == [] then false
    else if open && s[0] == '}' then true
    else if s[0] == '\n' then SearchBraces(s[1..], false)
    else if s[0] == '{' then SearchBraces(s[1..], true)
    else SearchBraces(s[1..], open)
  }

  /** The check on submit: the query is accepted when `\{.*\}` matches
      somewhere in it. */
  predicate HasPlaceholder(q: string) {
    SearchBraces(q, false)
  }

  /** A '{' at `i` and a '}' at `j` later on the same line. */
  ghost predicate PairOnLine(s: string, i: int, j: int) {
    0 <= i < j < |s| && s[i] == '{' && s[j] == '}' &&
    forall m :: i < m < j ==> s[m] != '\n'
  }

  ghost predicate SomePairOnLine(s: string) {
    exists i, j :: PairOnLine(s, i, j)
  }

  /** A '}' at `j` with no newline before it. */
  ghost predicate ClosesOnFirstLine(s: string, j: int) {
    0 <= j < |s| && s[j] == '}' && forall m :: 0 <= m < j ==> s[m] != '\n'
  }

  ghost predicate SomeCloseOnFirstLine(s: string) {
    exists j :: ClosesOnFirstLine(s, j)
  }

  lemma PairsOfTail(s: string)
    requires s != []
    ensures SomePairOnLine(s) <==>
      SomePairOnLine(s[1..]) || (s[0] == '{' && SomeCloseOnFirstLine(s[1..]))
  {
    var t := s[1..];
    if SomePairOnLine(s) {
      var i, j :| PairOnLine(s, i, j);
      if i == 0 {
        assert ClosesOnFirstLine(t, j - 1);
      } else {
        assert PairOnLine(t, i - 1, j - 1);
      }
    }
    if SomePairOnLine(t) {
      var i, j :| PairOnLine(t, i, j);
      assert PairOnLine(s, i + 1, j + 1);
    }
    if s[0] == '{' && SomeCloseOnFirstLine(t) {
      var j :| ClosesOnFirstLine(t, j);
      assert PairOnLine(s, 0, j + 1);
    }
  }

  lemma ClosesOfTail(s: string)
    requires s != []
    ensures SomeCloseOnFirstLine(s) <==>
      s[0] == '}' || (s[0] != '\n' && SomeCloseOnFirstLine(s[1..]))
  {
    var t := s[1..];
    if SomeCloseOnFirstLine(s) {
      var j :| ClosesOnFirstLine(s, j);
      if j > 0 {
        assert ClosesOnFirstLine(t, j - 1);
      }
    }
    if s[0] == '}' {
      assert ClosesOnFirstLine(s, 0);
    }
    if s[0] != '\n' && SomeCloseOnFirstLine(t) {
      var j :| ClosesOnFirstLine(t, j);
      assert ClosesOnFirstLine(s, j + 1);
    }
  }

  /** What the automaton decides: starting with an open brace it finds a '}'
      on the first line, and in any state it finds a '{' with a later '}' on
      the same line. */
  lemma {:induction false} SearchBracesMeaning(s: string, open: bool)
    ensures SearchBraces(s, open) <==> (open && SomeCloseOnFirstLine(s)) || SomePairOnLine(s)
    decreases |s|
  {
    if s == [] {
      assert !SomePairOnLine(s);
      assert !SomeCloseOnFirstLine(s);
    } else {
      var t := s[1..];
      PairsOfTail(s);
      ClosesOfTail(s);
      if open && s[0] == '}' {
      } else if s[0] == '\n' {
        SearchBracesMeaning(t, false);
      } else if s[0] == '{' {
        SearchBracesMeaning(t, true);
      } else {
        SearchBracesMeaning(t, open);
      }
    }
  }

  /** The check accepts exactly the queries in which some line has a '{'
      followed later on that line by a '}'. */
  lemma HasPlaceholderIff(q: string)
    ensures HasPlaceholder(q) <==> SomePairOnLine(q)
  {
    SearchBracesMeaning(q, false);
  }

  /** An empty `{}` is accepted; a '}' before the '{', or braces on two
      different lines, are not. */
  lemma HasPlaceholderExamples()
    ensures HasPlaceholder("{}")
    ensures !HasPlaceholder("}{")
    ensures !HasPlaceholder("{\n}")
  {
  }

  // ---------------------------------------------------------------------
  // clean_query: re.sub(r"\{.*?\}", "", query).strip()
  // ---------------------------------------------------------------------

  /** Index of the first '}' or '\n' in `s`, or |s| when there is none. */
  function NextStop(s: string): (k: nat)
    ensures k <= |s|
    ensures k < |s| ==> s[k] == '}' || s[k] == '\n'
    ensures forall m :: 0 <= m < k ==> s[m] != '}' && s[m] != '\n'
    decreases |s|
  {
    if s == [] || s[0] == '}' || s[0] == '\n' then 0 else 1 + NextStop(s[1..])
  }

  /** After a '{', the lazy `.*?\}` succeeds on `s`: a '}' comes before any
      newline. */
  predicate FirstLineCloses(s: string) {
    NextStop(s) < |s| && s[NextStop(s)] == '}'
  }

  /** `re.sub(r"\{.*?\}", "", s)`: at a '{' whose line holds a later '}',
      the text up to and including the first such '}' is dropped and the scan
      resumes after it; every other character is kept. */
  function RemoveSpans(s: string): string
    decreases |s|
  {
    if s == [] then []
    else if s[0] == '{' && FirstLineCloses(s[1..]) then RemoveSpans(s[NextStop(s[1..]) + 2..])
    else [s[0]] + RemoveSpans(s[1..])
  }

  /** `clean_query`: placeholder spans removed, then surrounding whitespace. */
  function CleanQuery(q: string): string {
    Strip(RemoveSpans(q))
  }

  /** Whatever the removal keeps, no '{' of it is followed by a '}' on the
      same line; starting open, the first line of the input had no '}'. */
  lemma {:induction false} ScanAfterRemoval(s: string, open: bool)
    requires open ==> !FirstLineCloses(s)
    ensures !SearchBraces(RemoveSpans(s), open)
    decreases |s|
  {
    if s != [] {
      var t := s[1..];
      if s[0] == '{' && FirstLineCloses(t) {
        ScanAfterRemoval(s[NextStop(t) + 2..], false);
      } else {
        var r := RemoveSpans(t);
        assert ([s[0]] + r)[1..] == r;
        var nextOpen := if s[0] == '\n' then false else if s[0] == '{' then true else open;
        ScanAfterRemoval(t, nextOpen);
      }
    }
  }

  /** No line of a strip-only slice has a pair the whole string lacks. */
  lemma NoPairInSlice(s: string, a: int, b: int)
    requires 0 <= a <= b <= |s|
    requires !SomePairOnLine(s)
    ensures !SomePairOnLine(s[a..b])
  {
    forall i, j | PairOnLine(s[a..b], i, j)
      ensures PairOnLine(s, a + i, a + j)
    {
    }
  }

  /** Trimming whitespace cannot create a pair. */
  lemma StripKeepsNoPair(r: string)
    requires !SomePairOnLine(r)
    ensures !SomePairOnLine(Strip(r))
  {
    var c := Strip(r);
    var a := |r| - |StripLeading(r)|;
    NoPairInSlice(r, a, a + |c|);
  }

  /** The cleaned query has no surrounding whitespace and would itself be
      refused by the placeholder check. */
  lemma CleanQueryHasNoPlaceholder(q: string)
    ensures !HasPlaceholder(CleanQuery(q))
    ensures var c := CleanQuery(q); c == [] || (!IsSpace(c[0]) && !IsSpace(c[|c| - 1]))
  {
    var r := RemoveSpans(q);
    assert !SomePairOnLine(r) by {
      ScanAfterRemoval(q, false);
      SearchBracesMeaning(r, false);
    }
    StripKeepsNoPair(r);
    SearchBracesMeaning(Strip(r), false);
  }

  /** On text the check refuses, the substitution removes nothing. */
  lemma {:induction false} RemoveSpansFixesCleanText(s: string)
    requires !HasPlaceholder(s)
    ensures RemoveSpans(s) == s
    decreases |s|
  {
    if s != [] {
      var t := s[1..];
      SearchBracesMeaning(s, false);
      SearchBracesMeaning(t, false);
      PairsOfTail(s);
      assert FirstLineCloses(t) ==> ClosesOnFirstLine(t, NextStop(t));
      RemoveSpansFixesCleanText(t);
      assert s == [s[0]] + t;
    }
  }

  /** Cleaning twice is cleaning once. */
  lemma CleanQueryIdempotent(q: string)
    ensures CleanQuery(CleanQuery(q)) == CleanQuery(q)
  {
    var c := CleanQuery(q);
    CleanQueryHasNoPlaceholder(q);
    RemoveSpansFixesCleanText(c);
    StripIdempotent(RemoveSpans(q));
  }

  /** On a query without '{', cleaning is plain whitespace stripping. */
  lemma CleanQueryWithoutBraces(q: string)
    requires '{' !in q
    ensures CleanQuery(q) == Strip(q)
  {
    forall i, j ensures !PairOnLine(q, i, j) {
      if 0 <= i < |q| {
        assert q[i] in q;
      }
    }
    SearchBracesMeaning(q, false);
    RemoveSpansFixesCleanText(q);
  }

  /** Text without '{' passes through the removal unchanged. */
  lemma {:induction false} RemoveSpansPlain(pre: string, s: string)
    requires '{' !in pre
    ensures RemoveSpans(pre + s) == pre + RemoveSpans(s)
    decreases |pre|
  {
    if pre != [] {
      assert pre[0] in pre;
      assert (pre + s)[1..] == pre[1..] + s;
      RemoveSpansPlain(pre[1..], s);
      assert pre == [pre[0]] + pre[1..];
    } else {
      assert pre + s == s;
    }
  }

  lemma {:induction false} NextStopAfterName(name: string, rest: string)
    requires '}' !in name && '\n' !in name
    ensures NextStop(name + rest) == |name| + NextStop(rest)
    decreases |name|
  {
    if name != [] {
      assert name[0] in name;
      assert (name + rest)[1..] == name[1..] + rest;
      NextStopAfterName(name[1..], rest);
    } else {
      assert name + rest == rest;
    }
  }

  /** A one-line `{name}` span is removed as a whole. */
  lemma RemoveSpansSpan(name: string, s: string)
    requires '}' !in name && '\n' !in name
    ensures RemoveSpans(Brace(name) + s) == RemoveSpans(s)
  {
    var t := Brace(name) + s;
    assert t[1..] == name + (['}'] + s);
    NextStopAfterName(name, ['}'] + s);
    assert t[|name| + 2..] == s;
  }

  lemma RemoveTwoSpans(a: string, n1: string, b: string, n2: string)
    requires '{' !in a && '{' !in b
    requires '}' !in n1 && '\n' !in n1 && '}' !in n2 && '\n' !in n2
    ensures RemoveSpans(a + Brace(n1) + b + Brace(n2)) == a + b
  {
    assert a + Brace(n1) + b + Brace(n2) == a + (Brace(n1) + (b + (Brace(n2) + [])));
    RemoveSpansPlain(a, Brace(n1) + (b + (Brace(n2) + [])));
    RemoveSpansSpan(n1, b + (Brace(n2) + []));
    RemoveSpansPlain(b, Brace(n2) + []);
    RemoveSpansSpan(n2, []);
    assert b + [] == b;
  }

  /** The prompt's shape `text {name}`: the span goes and only the text,
      trimmed, is left. */
  lemma CleanQueryOneSpan(a: string, n: string)
    requires '{' !in a && '}' !in n && '\n' !in n
    ensures CleanQuery(a + Brace(n)) == Strip(a)
  {
    RemoveSpansPlain(a, Brace(n));
    RemoveSpansSpan(n, []);
    assert Brace(n) + [] == Brace(n);
    assert a + [] == a;
  }

  /** Two spans: both go, and the text between them is kept as it is, so
      the spaces that surrounded a span stay inside the cleaned query. */
  lemma CleanQueryTwoSpans(a: string, n1: string, b: string, n2: string)
    requires '{' !in a && '{' !in b
    requires '}' !in n1 && '\n' !in n1 && '}' !in n2 && '\n' !in n2
    ensures CleanQuery(a + Brace(n1) + b + Brace(n2)) == Strip(a + b)
  {
    RemoveTwoSpans(a, n1, b, n2);
  }

  // ---------------------------------------------------------------------
  // Placeholder names: re.findall(r'\{([^}]+)\}', query)
  // ---------------------------------------------------------------------

  /** Index of the first '}' at or after `i`, or |s| when there is none. */
  function NextClose(s: string, i: nat): (k: nat)
    requires i <= |s|
    ensures i <= k <= |s|
    ensures k < |s| ==> s[k] == '}'
    ensures forall m :: i <= m < k ==> s[m] != '}'
    decreases |s| - i
  {
    if i == |s| || s[i] == '}' then i else NextClose(s, i + 1)
  }

  /** `\{([^}]+)\}` matches at `p`: a '{' whose next '}' exists and is not
      right after it. `[^}]` also takes '{' and '\n'. */
  predicate MatchStartsAt(s: string, p: nat)
    requires p < |s|
  {
    s[p] == '{' && p + 1 < NextClose(s, p + 1) < |s|
  }

  /** The braces of one match: `open` holds '{', `close` the '}'. */
  datatype Span = Span(open: nat, close: nat)

  /** The matches `re.findall` visits from index `i` on: after a match the
      scan resumes behind its '}', after a failed position at the next one. */
  function Matches(s: string, i: nat): seq<Span>
    requires i <= |s|
    decreases |s| - i
  {
    if i == |s| then []
    else if MatchStartsAt(s, i) then [Span(i, NextClose(s, i + 1))] + Matches(s, NextClose(s, i + 1) + 1)
    else Matches(s, i + 1)
  }

  /** Every span lies inside `q`, its '}' after its '{'. */
  predicate SpansWithin(q: string, m: seq<Span>) {
    forall k :: 0 <= k < |m| ==> m[k].open < m[k].close < |q|
  }

  /** `sp` is a match of the pattern: its '{' starts one and its '}' is the
      first one after it. */
  predicate IsMatch(s: string, sp: Span) {
    sp.open < sp.close < |s| && MatchStartsAt(s, sp.open) && sp.close == NextClose(s, sp.open + 1)
  }

  /** The spans come in text order without overlapping. */
  predicate InTextOrder(m: seq<Span>) {
    forall k :: 0 <= k < |m| - 1 ==> m[k].close < m[k + 1].open
  }

  /** All the facts `MatchesSound` states about a list of spans. */
  predicate SoundFrom(s: string, i: nat, m: seq<Span>) {
    SpansWithin(s, m) && InTextOrder(m) &&
    forall k :: 0 <= k < |m| ==> i <= m[k].open && IsMatch(s, m[k])
  }

  /** A match in front of sound spans that start behind its '}'. */
  lemma SoundCons(s: string, i: nat, sp: Span, rest: seq<Span>)
    requires IsMatch(s, sp) && i <= sp.open && SoundFrom(s, sp.close + 1, rest)
    ensures SoundFrom(s, i, [sp] + rest)
  {
    var r := [sp] + rest;
    forall k | 0 < k < |r| ensures r[k] == rest[k - 1] { }
    assert forall k :: 0 <= k < |r| ==> r[k].open < r[k].close < |s|;
    assert forall k :: 0 <= k < |r| ==> i <= r[k].open && IsMatch(s, r[k]);
    forall k | 0 <= k < |r| - 1 ensures r[k].close < r[k + 1].open {
      if k > 0 {
        assert rest[k - 1].close < rest[k].open;
      }
    }
  }

  /** Every match the scan reports starts at or after `i` at a position where
      the pattern matches, ends at the first '}' after its '{', and the
      matches come in text order without overlapping. */
  lemma {:induction false} MatchesSound(s: string, i: nat)
    requires i <= |s|
    ensures SoundFrom(s, i, Matches(s, i))
    decreases |s| - i
  {
    if i < |s| {
      if MatchStartsAt(s, i) {
        var c := NextClose(s, i + 1);
        MatchesSound(s, c + 1);
        SoundCons(s, i, Span(i, c), Matches(s, c + 1));
        assert Matches(s, i) == [Span(i, c)] + Matches(s, c + 1);
      } else {
        MatchesSound(s, i + 1);
        assert Matches(s, i) == Matches(s, i + 1);
      }
    }
  }

  function Brace(name: string): string {
    ['{'] + name + ['}']
  }

  /** The text strictly between the braces of each span. */
  function Captures(q: string, m: seq<Span>): (names: seq<string>)
    ensures |names| == |m|
    decreases |m|
  {
    if m == [] then []
    else
      // spans from Matches always lie inside q (MatchesSound)
      var name := if m[0].open < m[0].close <= |q| then q[m[0].open + 1..m[0].close] else [];
      [name] + Captures(q, m[1..])
  }

  /** The captured group of every match, in the order of the matches. */
  function Placeholders(q: string): (names: seq<string>)
    ensures |names| == |Matches(q, 0)|
  {
    Captures(q, Matches(q, 0))
  }

  lemma {:induction false} CapturesAt(q: string, m: seq<Span>, k: nat)
    requires SpansWithin(q, m)
    requires k < |m|
    ensures Captures(q, m)[k] == q[m[k].open + 1..m[k].close]
    decreases k
  {
    if k > 0 {
      assert SpansWithin(q, m[1..]) by {
        forall j | 0 <= j < |m[1..]| ensures m[1..][j] == m[j + 1] { }
      }
      CapturesAt(q, m[1..], k - 1);
      assert m[1..][k - 1] == m[k];
    }
  }

  /** Every name is non-empty, holds no '}', and sits between the braces of
      its own match; the matches are disjoint and in text order, so a name
      that occurs twice is listed twice. */
  lemma PlaceholderNames(q: string, k: nat)
    requires k < |Placeholders(q)|
    ensures var m := Matches(q, 0); var name := Placeholders(q)[k];
      m[k].open < m[k].close < |q| && name != [] && '}' !in name && q[m[k].open..m[k].close + 1] == Brace(name) &&
      (k + 1 < |m| ==> m[k].close < m[k + 1].open)
  {
    var m := Matches(q, 0);
    MatchesSound(q, 0);
    CapturesAt(q, m, k);
    assert IsMatch(q, m[k]);
    BraceOfSpan(q, m[k].open, m[k].close);
  }

  /** A '{' and the first '}' after it enclose a name without '}'. */
  lemma BraceOfSpan(q: string, o: nat, c: nat)
    requires o < c < |q| && q[o] == '{' && c == NextClose(q, o + 1)
    ensures var name := q[o + 1..c];
      '}' !in name && q[o..c + 1] == Brace(name)
  {
    var name := q[o + 1..c];
    forall x | 0 <= x < |name| ensures name[x] != '}' {
      assert name[x] == q[o + 1 + x];
    }
    assert q[o..c + 1] == [q[o]] + name + [q[c]];
  }

  /** The scan misses no match: a position where the pattern matches and
      that no reported span covers is the start of a reported span. */
  lemma {:induction false} MatchesComplete(s: string, i: nat, p: nat)
    requires i <= p < |s| && MatchStartsAt(s, p)
    requires forall k :: 0 <= k < |Matches(s, i)| ==> !(Matches(s, i)[k].open < p <= Matches(s, i)[k].close)
    ensures exists k :: 0 <= k < |Matches(s, i)| && Matches(s, i)[k].open == p
    decreases |s| - i
  {
    var m := Matches(s, i);
    if MatchStartsAt(s, i) {
      var c := NextClose(s, i + 1);
      var rest := Matches(s, c + 1);
      assert m == [Span(i, c)] + rest;
      if p == i {
        assert m[0].open == p;
      } else {
        assert m[0] == Span(i, c);
        forall k | 0 <= k < |rest| ensures !(rest[k].open < p <= rest[k].close) {
          assert rest[k] == m[k + 1];
        }
        MatchesComplete(s, c + 1, p);
        var k :| 0 <= k < |rest| && rest[k].open == p;
        assert m[k + 1].open == p;
      }
    } else {
      assert m == Matches(s, i + 1);
      MatchesComplete(s, i + 1, p);
    }
  }

  /** Every match of the pattern that does not lie inside an earlier match
      gives a name: the text between its '{' and the first '}' after it. */
  lemma PlaceholdersComplete(q: string, p: nat)
    requires p < |q| && MatchStartsAt(q, p)
    requires forall k :: 0 <= k < |Matches(q, 0)| ==> !(Matches(q, 0)[k].open < p <= Matches(q, 0)[k].close)
    ensures exists k :: 0 <= k < |Placeholders(q)| && Matches(q, 0)[k].open == p &&
                        Placeholders(q)[k] == q[p + 1..NextClose(q, p + 1)]
  {
    var m := Matches(q, 0);
    MatchesComplete(q, 0, p);
    var k :| 0 <= k < |m| && m[k].open == p;
    assert SpansWithin(q, m) && IsMatch(q, m[k]) by {
      MatchesSound(q, 0);
    }
    CapturesAt(q, m, k);
    assert Placeholders(q)[k] == q[p + 1..NextClose(q, p + 1)];
  }

  /** The scan from `i` finds nothing exactly when no match starts there or later. */
  lemma {:induction false} MatchesEmptyIff(s: string, i: nat)
    requires i <= |s|
    ensures Matches(s, i) == [] <==> forall p :: i <= p < |s| ==> !MatchStartsAt(s, p)
    decreases |s| - i
  {
    if i < |s| && !MatchStartsAt(s, i) {
      MatchesEmptyIff(s, i + 1);
    }
  }

  /** No placeholder names exactly when no position starts a match. */
  lemma PlaceholdersEmptyIff(q: string)
    ensures Placeholders(q) == [] <==> forall p :: 0 <= p < |q| ==> !MatchStartsAt(q, p)
  {
    MatchesEmptyIff(q, 0);
  }

  // ---------------------------------------------------------------------
  // Per-row substitution: for p in placeholders: q = q.replace("{p}", value)
  // ---------------------------------------------------------------------

  /** The names replaced one after the other, in list order. */
  function Substitute(s: string, names: seq<string>, value: string): string
    decreases |names|
  {
    if names == [] then s
    else ReplaceAll(Substitute(s, names[..|names| - 1], value), Brace(names[|names| - 1]), value)
  }

  /** The query a row is researched with. The names depend on the query
      alone; only the value differs from row to row. */
  function Formatted(query: string, value: string): string {
    Substitute(query, Placeholders(query), value)
  }

  /** The loop of app.py: each placeholder found in the query is replaced,
      in list order, by the row value. */
  method FormatQuery(query: string, rowValue: string) returns (formatted: string)
    ensures formatted == Formatted(query, rowValue)
  {
    var placeholders := Placeholders(query);
    formatted := query;
    for i := 0 to |placeholders|
      invariant formatted == Substitute(query, placeholders[..i], rowValue)
    {
      formatted := ReplaceAll(formatted, Brace(placeholders[i]), rowValue);
      assert placeholders[..i + 1][..i] == placeholders[..i];
    }
    assert placeholders[..|placeholders|] == placeholders;
  }

  /** When every '{' is immediately closed, nothing is extracted and every
      row is researched with the query exactly as typed. */
  lemma EmptyBracesOnly(q: string, value: string)
    requires forall p :: 0 <= p < |q| && q[p] == '{' ==> p + 1 < |q| && q[p + 1] == '}'
    ensures Placeholders(q) == []
    ensures Formatted(q, value) == q
  {
    forall p | 0 <= p < |q| ensures !MatchStartsAt(q, p) {
      if q[p] == '{' {
        assert NextClose(q, p + 1) == p + 1;
      }
    }
    PlaceholdersEmptyIff(q);
  }

  /** `{}` passes the check, but no name is extracted from it. */
  lemma EmptyPlaceholderAccepted(value: string)
    ensures HasPlaceholder("{}") && Placeholders("{}") == [] && Formatted("{}", value) == "{}"
  {
    EmptyBracesOnly("{}", value);
  }

  lemma {:induction false} MatchesSkipPlain(s: string, i: nat, j: nat)
    requires i <= j <= |s|
    requires forall p :: i <= p < j ==> s[p] != '{'
    ensures Matches(s, i) == Matches(s, j)
    decreases j - i
  {
    if i < j {
      MatchesSkipPlain(s, i + 1, j);
    }
  }

  lemma {:induction false} NextCloseSkip(s: string, i: nat, j: nat)
    requires i <= j <= |s|
    requires forall p :: i <= p < j ==> s[p] != '}'
    ensures NextClose(s, i) == NextClose(s, j)
    decreases j - i
  {
    if i < j {
      NextCloseSkip(s, i + 1, j);
    }
  }

  /** A '{' at `o` whose first '}' after it is at `c > o + 1` is a match, and
      the scan resumes right behind it. */
  lemma MatchAtSpan(s: string, o: nat, c: nat)
    requires o + 1 < c < |s| && s[o] == '{' && s[c] == '}'
    requires forall x :: o < x < c ==> s[x] != '}'
    ensures Matches(s, o) == [Span(o, c)] + Matches(s, c + 1)
  {
    NextCloseSkip(s, o + 1, c);
    assert NextClose(s, c) == c;
    assert MatchStartsAt(s, o);
  }

  /** Where the characters of a `{name}` span sit in a text. */
  lemma BraceLayout(pre: string, name: string, rest: string)
    ensures var s := pre + Brace(name) + rest; var o, c := |pre|, |pre| + |name| + 1;
      c < |s| && s[o] == '{' && s[c] == '}' && s[o + 1..c] == name &&
      forall x :: o < x < c ==> s[x] == name[x - o - 1]
  {
    var s := pre + Brace(name) + rest;
    var o, c := |pre|, |pre| + |name| + 1;
    assert forall x :: o < x < c ==> s[x] == name[x - o - 1];
    assert s[o + 1..c] == name;
  }

  /** A `{name}` span whose name is non-empty and holds no '}' is one match
      capturing that name, and the scan resumes right behind it. */
  lemma MatchAtBrace(pre: string, name: string, rest: string)
    requires name != [] && '}' !in name
    ensures var s := pre + Brace(name) + rest;
      |pre| + |name| + 1 < |s| &&
      Matches(s, |pre|) == [Span(|pre|, |pre| + |name| + 1)] + Matches(s, |pre| + |name| + 2) &&
      s[|pre| + 1..|pre| + |name| + 1] == name
  {
    var s := pre + Brace(name) + rest;
    var o, c := |pre|, |pre| + |name| + 1;
    BraceLayout(pre, name, rest);
    assert forall x :: o < x < c ==> s[x] != '}' by {
      forall x | o < x < c ensures s[x] != '}' {
        assert s[x] == name[x - o - 1];
      }
    }
    MatchAtSpan(s, o, c);
  }

  /** Substituting one name is one replacement. */
  lemma SubstituteOne(s: string, name: string, value: string)
    ensures Substitute(s, [name], value) == ReplaceAll(s, Brace(name), value)
  {
    assert [name][..0] == [];
  }

  /** The scan of `pre + {name}` finds that one span. */
  lemma MatchesOfSingle(pre: string, name: string)
    requires '{' !in pre && name != [] && '}' !in name
    ensures Matches(pre + Brace(name), 0) == [Span(|pre|, |pre| + |name| + 1)]
  {
    var q := pre + Brace(name);
    assert q == pre + Brace(name) + [];
    assert forall p :: 0 <= p < |pre| ==> q[p] == pre[p];
    MatchesSkipPlain(q, 0, |pre|);
    MatchAtBrace(pre, name, []);
    assert Matches(q, |q|) == [];
  }

  /** A query whose one placeholder closes it: the name is extracted and every
      row is researched with the text before it followed by the row value. */
  lemma SinglePlaceholder(pre: string, name: string, value: string)
    requires '{' !in pre && name != [] && '}' !in name
    ensures Placeholders(pre + Brace(name)) == [name]
    ensures Formatted(pre + Brace(name), value) == pre + value
  {
    var pat := Brace(name);
    var q := pre + pat;
    assert Placeholders(q) == [name] by {
      var sp := Span(|pre|, |pre| + |name| + 1);
      MatchesOfSingle(pre, name);
      BraceAt(q, pre, name, []);
      assert [sp][1..] == [];
      assert Placeholders(q) == Captures(q, [sp]);
    }
    SubstituteOne(q, name, value);
    ReplaceAllPrefix(pre, pat, pat, value);
    ReplaceAllWhole(pat, value);
  }

  /** A name used twice: both of its spans are replaced by one `replace`. */
  lemma TwiceReplaced(pre: string, mid: string, name: string, value: string)
    requires '{' !in pre && '{' !in mid
    ensures ReplaceAll(pre + Brace(name) + mid + Brace(name), Brace(name), value)
      == pre + value + mid + value
  {
    var pat := Brace(name);
    NoFirstChar(pre, pat, pat);
    NoFirstChar(mid, pat, pat);
    assert SplitPieces([pre, mid, []], pat);
    JoinWithTwo(pre, mid, pat);
    JoinWithTwo(pre, mid, value);
    ReplaceAllJoin([pre, mid, []], pat, value);
  }

  /** The scan of `pre{n1}mid{n2}` finds both spans, and the names come out
      in text order. */
  lemma PlaceholdersOfTwo(pre: string, n1: string, mid: string, n2: string)
    requires '{' !in pre && '{' !in mid
    requires n1 != [] && '}' !in n1 && n2 != [] && '}' !in n2
    ensures Placeholders(pre + Brace(n1) + mid + Brace(n2)) == [n1, n2]
  {
    var q := pre + Brace(n1) + mid + Brace(n2);
    var o2 := |pre| + |n1| + 2 + |mid|;
    var a, b := Span(|pre|, |pre| + |n1| + 1), Span(o2, o2 + |n2| + 1);
    SpansOfTwo(q, pre, n1, mid, n2);
    CapturesOfTwo(q, a, b);
    assert Placeholders(q) == Captures(q, [a, b]);
  }

  /** The two spans of `q == pre{n1}mid{n2}`, capturing `n1` and `n2`. */
  lemma SpansOfTwo(q: string, pre: string, n1: string, mid: string, n2: string)
    requires q == pre + Brace(n1) + mid + Brace(n2)
    requires '{' !in pre && '{' !in mid
    requires n1 != [] && '}' !in n1 && n2 != [] && '}' !in n2
    ensures var o2 := |pre| + |n1| + 2 + |mid|;
      Matches(q, 0) == [Span(|pre|, |pre| + |n1| + 1), Span(o2, o2 + |n2| + 1)] &&
      q[|pre| + 1..|pre| + |n1| + 1] == n1 && q[o2 + 1..o2 + |n2| + 1] == n2
  {
    var o1, c1 := |pre|, |pre| + |n1| + 1;
    var o2 := c1 + 1 + |mid|;
    FirstOfTwo(q, pre, n1, mid, n2);
    SecondOfTwo(q, pre, n1, mid, n2);
    SpansAt(q, o1, c1, o2, o2 + |n2| + 1);
  }

  /** The text before the second span of `pre{n1}mid{n2}`. */
  lemma FirstOfTwo(q: string, pre: string, n1: string, mid: string, n2: string)
    requires q == pre + Brace(n1) + mid + Brace(n2)
    requires '{' !in pre && '{' !in mid && '}' !in n1
    ensures var o1, c1 := |pre|, |pre| + |n1| + 1;
      c1 < |q| && q[o1] == '{' && q[c1] == '}' && q[o1 + 1..c1] == n1 &&
      (forall x :: o1 < x < c1 ==> q[x] != '}') &&
      (forall x :: 0 <= x < o1 ==> q[x] != '{') &&
      (forall x :: c1 < x < c1 + 1 + |mid| ==> q[x] != '{')
  {
    var p1, p2 := Brace(n1), Brace(n2);
    assert q == pre + p1 + (mid + p2);
    BraceAt(q, pre, n1, mid + p2);
    assert q == [] + pre + (p1 + mid + p2);
    NoOpenAt(q, [], pre, p1 + mid + p2);
    assert q == (pre + p1) + mid + p2;
    NoOpenAt(q, pre + p1, mid, p2);
  }

  /** The second span of `pre{n1}mid{n2}`, which ends the text. */
  lemma SecondOfTwo(q: string, pre: string, n1: string, mid: string, n2: string)
    requires q == pre + Brace(n1) + mid + Brace(n2)
    requires '}' !in n2
    ensures var o2 := |pre| + |n1| + 2 + |mid|; var c2 := o2 + |n2| + 1;
      c2 == |q| - 1 && q[o2] == '{' && q[c2] == '}' && q[o2 + 1..c2] == n2 &&
      forall x :: o2 < x < c2 ==> q[x] != '}'
  {
    assert q == (pre + Brace(n1) + mid) + Brace(n2) + [];
    BraceAt(q, pre + Brace(n1) + mid, n2, []);
  }

  /** A `{name}` span at `|front|` of `q`: its braces, its name, and no '}'
      inside it. */
  lemma BraceAt(q: string, front: string, name: string, rest: string)
    requires q == front + Brace(name) + rest && '}' !in name
    ensures var o, c := |front|, |front| + |name| + 1;
      c < |q| && q[o] == '{' && q[c] == '}' && q[o + 1..c] == name &&
      forall x :: o < x < c ==> q[x] != '}'
  {
    BraceLayout(front, name, rest);
    NoCloseIn(q, |front|, name);
  }

  /** A part without '{' puts no '{' in the text it is part of. */
  lemma NoOpenAt(q: string, front: string, part: string, rest: string)
    requires q == front + part + rest && '{' !in part
    ensures forall x :: |front| <= x < |front| + |part| ==> q[x] != '{'
  {
    forall x | |front| <= x < |front| + |part| ensures q[x] != '{' {
      assert q[x] == part[x - |front|];
    }
  }

  /** A name without '}' copied into `q` at `o + 1` puts no '}' there. */
  lemma NoCloseIn(q: string, o: nat, name: string)
    requires '}' !in name && o + |name| < |q|
    requires forall x :: o < x <= o + |name| ==> q[x] == name[x - o - 1]
    ensures forall x :: o < x <= o + |name| ==> q[x] != '}'
  {
    forall x | o < x <= o + |name| ensures q[x] != '}' {
      assert q[x] == name[x - o - 1];
    }
  }

  /** Two non-empty spans, with no '{' before or between them and the second
      ending the text, are scanned as exactly those two matches. */
  lemma SpansAt(q: string, o1: nat, c1: nat, o2: nat, c2: nat)
    requires o1 + 1 < c1 < o2 && o2 + 1 < c2 == |q| - 1
    requires q[o1] == '{' && q[c1] == '}' && q[o2] == '{' && q[c2] == '}'
    requires forall x :: 0 <= x < o1 ==> q[x] != '{'
    requires forall x :: c1 < x < o2 ==> q[x] != '{'
    requires forall x :: o1 < x < c1 ==> q[x] != '}'
    requires forall x :: o2 < x < c2 ==> q[x] != '}'
    ensures Matches(q, 0) == [Span(o1, c1), Span(o2, c2)]
  {
    MatchesSkipPlain(q, 0, o1);
    MatchAtSpan(q, o1, c1);
    MatchesSkipPlain(q, c1 + 1, o2);
    MatchAtSpan(q, o2, c2);
    assert Matches(q, |q|) == [];
  }

  lemma CapturesOfTwo(q: string, a: Span, b: Span)
    requires a.open < a.close < |q| && b.open < b.close < |q|
    ensures Captures(q, [a, b]) == [q[a.open + 1..a.close], q[b.open + 1..b.close]]
  {
    assert [a, b][1..] == [b] && [b][1..] == [];
  }

  /** A query that uses one name twice, `pre{name}mid{name}`: the name is
      extracted twice, the first replacement already fills both spans, and
      the second changes nothing when the value holds no '{'. */
  lemma FormattedTwice(pre: string, mid: string, name: string, value: string)
    requires '{' !in pre && '{' !in mid && name != [] && '}' !in name
    ensures var q := pre + Brace(name) + mid + Brace(name);
      Placeholders(q) == [name, name] &&
      Formatted(q, value) == ReplaceAll(pre + value + mid + value, Brace(name), value) &&
      ('{' !in value ==> Formatted(q, value) == pre + value + mid + value)
  {
    var pat := Brace(name);
    var q := pre + pat + mid + pat;
    PlaceholdersOfTwo(pre, name, mid, name);
    assert Substitute(q, [name, name], value) == ReplaceAll(ReplaceAll(q, pat, value), pat, value) by {
      assert [name, name][..1] == [name];
      SubstituteOne(q, name, value);
    }
    TwiceReplaced(pre, mid, name, value);
    if '{' !in value {
      var t := pre + value + mid + value;
      assert t + [] == t;
      ReplaceAllPrefix(t, [], pat, value);
      ReplaceAllShort([], pat, value);
    }
  }

  /** `{n1}` occurs nowhere in `{n2}` for a different name `n2` without
      braces. */
  lemma BraceNotInBrace(n1: string, n2: string)
    requires n1 != n2 && '{' !in n2 && '}' !in n2
    ensures forall i: nat :: !OccursAt(Brace(n2), Brace(n1), i)
  {
    var p1, p2 := Brace(n1), Brace(n2);
    forall i: nat ensures !OccursAt(p2, p1, i) {
      if i + |p1| <= |p2| {
        if i > 0 {
          assert p2[i] == n2[i - 1];
          assert p2[i..i + |p1|][0] != p1[0];
        } else if |n1| < |n2| {
          assert p2[|n1| + 1] == n2[|n1|];
          assert p2[..|p1|][|n1| + 1] != p1[|n1| + 1];
        } else {
          assert exists j :: 0 <= j < |n1| && n1[j] != n2[j];
          var j :| 0 <= j < |n1| && n1[j] != n2[j];
          assert p2[..|p1|][j + 1] == n2[j] && p1[j + 1] == n1[j];
        }
      }
    }
  }

  /** The prompt's shape with two different names, `a{n1}b{n2}`: both names
      are extracted in text order, and every row is researched with the
      value in both places. The first `replace` leaves `{n2}` alone, and the
      second fills it. */
  lemma FormattedTwoNames(a: string, n1: string, b: string, n2: string, v: string)
    requires '{' !in a && '{' !in b && '{' !in v && '{' !in n2
    requires n1 != [] && '}' !in n1 && n2 != [] && '}' !in n2 && n1 != n2
    ensures var q := a + Brace(n1) + b + Brace(n2);
      Placeholders(q) == [n1, n2] && Formatted(q, v) == a + v + b + v
  {
    var p1, p2 := Brace(n1), Brace(n2);
    var q := a + p1 + b + p2;
    PlaceholdersOfTwo(a, n1, b, n2);
    assert Substitute(q, [n1, n2], v) == ReplaceAll(ReplaceAll(q, p1, v), p2, v) by {
      assert [n1, n2][..1] == [n1];
      SubstituteOne(q, n1, v);
    }
    assert ReplaceAll(q, p1, v) == a + v + b + p2 by {
      assert q == a + (p1 + (b + p2));
      ReplaceAllPrefix(a, p1 + (b + p2), p1, v);
      ReplaceAllFront(b + p2, p1, v);
      ReplaceAllPrefix(b, p2, p1, v);
      BraceNotInBrace(n1, n2);
      ReplaceAllAbsent(p2, p1, v);
    }
    assert ReplaceAll(a + v + b + p2, p2, v) == a + v + b + v by {
      ReplaceAllPrefix(a + v + b, p2, p2, v);
      ReplaceAllWhole(p2, v);
    }
  }

  /** The worked example: one placeholder, replaced by the row value. */
  lemma FormattedExample(q: string, value: string)
    requires q == "email of {company}" && value == "Acme"
    ensures Placeholders(q) == ["company"]
    ensures Formatted(q, value) == "email of Acme"
  {
    var pre, name := "email of ", "company";
    assert q == pre + Brace(name) by {
      assert Brace(name) == "{company}";
    }
    assert '{' !in pre && '}' !in name;
    SinglePlaceholder(pre, name, value);
    assert pre + value == "email of Acme";
  }

  lemma DuplicatesKept()
    ensures Placeholders("{a}{a}") == ["a", "a"]
  {
    assert "{a}{a}" == [] + Brace("a") + [] + Brace("a");
    PlaceholdersOfTwo([], "a", [], "a");
  }
}
