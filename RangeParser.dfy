/**
  The page-range parser of script.js (`parsePageRange` and its helper
  `pushIdx`): a user-entered expression such as `1-3,5,7-` and a page count
  give the zero-based indices of the pages to copy, in the order they are
  first mentioned, without duplicates, falling back to every page when
  nothing usable is found.

  `PageRange` is the specification; `ParsePageRange` is the loop the source
  runs, proved equal to it. The lemmas state what the result is in terms of
  an independent reading: every token's in-range contribution, concatenated
  in token order, with later duplicates dropped.
 */
module RangeParser {
  import opened Text

  function Min(a: int, b: int): int { if a < b then a else b }
  function Max(a: int, b: int): int { if a < b then b else a }

  /** No element occurs twice. */
  predicate Distinct<T(==)>(s: seq<T>)
  {
    forall i, j :: 0 <= i < j < |s| ==> s[i] != s[j]
  }

  /** The elements of `s` as a set (the parser's `seen`). */
  function Elems<T(==)>(s: seq<T>): set<T>
  {
    set x | x in s
  }

  /** The zero-based indices `lo, lo + 1, ..., hi - 1`. */
  function Interval(lo: nat, hi: nat): seq<nat>
    requires lo <= hi
  {
    seq(hi - lo, i => lo + i)
  }

  /** `Array.from({ length: pageCount }, (_, i) => i)`: every page. */
  function AllPages(pageCount: nat): seq<nat>
  {
    Interval(0, pageCount)
  }

  // ---------------------------------------------------------------------
  // Tokens
  // ---------------------------------------------------------------------

  /** `String(input).replace(/\s+/g, '').split(',').filter(Boolean)` */
  function Tokens(input: string): seq<string>
  {
    DropEmpty(Split(StripSpace(input), ','))
  }

  /** A comma separates the tokens of its two sides. */
  lemma TokensAppend(a: string, b: string)
    ensures Tokens(a + "," + b) == Tokens(a) + Tokens(b)
  {
    StripSpaceAppend(a + ",", b);
    StripSpaceAppend(a, ",");
    assert StripSpace(",") == ",";
    SplitJoin(StripSpace(a), ',', StripSpace(b));
    DropEmptyAppend(Split(StripSpace(a), ','), Split(StripSpace(b), ','));
  }

  /** A string that is a token on its own stays one token. */
  lemma TokensOfOne(t: string)
    requires IsTokenText(t)
    ensures Tokens(t) == [t]
  {
    StripSpaceNoSpace(t);
    SplitNoSep(t, ',');
    assert DropEmpty([t]) == DropEmpty([]) + [t];
  }

  /** A blank expression has no tokens, so the early return at the top of the parser changes nothing. */
  lemma BlankHasNoTokens(input: string)
    requires IsBlank(input)
    ensures Tokens(input) == []
  {
    StripSpaceBlank(input);
    assert DropEmpty([[]]) == DropEmpty([]);
  }

  // ---------------------------------------------------------------------
  // The four token forms
  // ---------------------------------------------------------------------

  /** What a token says: `N`, `A-B`, `-B`, `A-`, or none of these. */
  datatype Token = Single(n: nat) | Closed(a: nat, b: nat) | Prefix(b: nat) | Suffix(a: nat) | Malformed

  /** The position of the first `-` in `t`, or `|t|` if there is none. */
  function DashAt(t: string): (k: nat)
    ensures k <= |t|
    ensures forall i :: 0 <= i < k ==> t[i] != '-'
    ensures k < |t| ==> t[k] == '-'
  {
    if t == [] then 0
    else if t[0] == '-' then 0
    else 1 + DashAt(t[1..])
  }

  /**
    The regular expressions `^\d+$`, `^(\d+)-(\d+)$`, `^-(\d+)$` and
    `^(\d+)-$`, tried in that order. Digits contain no `-`, so a token of one
    of the dashed forms has exactly one `-`, which is its first.
   */
  function ParseToken(t: string): Token
  {
    if IsDigits(t) then Single(DigitsValue(t))
    else
      var k := DashAt(t);
      if k == |t| then Malformed
      else
        var left := t[..k];
        var right := t[k + 1..];
        if IsDigits(left) && IsDigits(right) then Closed(DigitsValue(left), DigitsValue(right))
        else if left == [] && IsDigits(right) then Prefix(DigitsValue(right))
        else if IsDigits(left) && right == [] then Suffix(DigitsValue(left))
        else Malformed
  }

  lemma DashAfterDigits(d: string, rest: string)
    requires IsDigits(d)
    ensures DashAt(d + "-" + rest) == |d|
  {
    var t := d + "-" + rest;
    assert forall i :: 0 <= i < |d| ==> t[i] == d[i];
    assert t[|d|] == '-';
  }

  /** `^\d+$`: a string of digits is a single page number, read in decimal. */
  lemma ParseSingleForm(d: string)
    requires IsDigits(d)
    ensures ParseToken(d) == Single(DigitsValue(d))
  {
  }

  /** `^(\d+)-(\d+)$`: two digit strings around a dash are a closed range. */
  lemma ParseClosedForm(da: string, db: string)
    requires IsDigits(da) && IsDigits(db)
    ensures ParseToken(da + "-" + db) == Closed(DigitsValue(da), DigitsValue(db))
  {
    var t := da + "-" + db;
    DashAfterDigits(da, db);
    assert t[|da|] == '-' && !IsDigits(t);
    assert t[..|da|] == da && t[|da| + 1..] == db;
  }

  /** `^-(\d+)$`: a dash before digits is an open prefix range. */
  lemma ParsePrefixForm(db: string)
    requires IsDigits(db)
    ensures ParseToken("-" + db) == Prefix(DigitsValue(db))
  {
    var p := "-" + db;
    assert p[0] == '-' && !IsDigits(p);
    assert p[1..] == db;
  }

  /** `^(\d+)-$`: digits before a dash are an open suffix range. */
  lemma ParseSuffixForm(da: string)
    requires IsDigits(da)
    ensures ParseToken(da + "-") == Suffix(DigitsValue(da))
  {
    var s := da + "-";
    DashAfterDigits(da, "");
    assert s[|da|] == '-' && !IsDigits(s);
    assert s[..|da|] == da && s[|da| + 1..] == "";
  }

  /** A token with a character other than a digit or `-`, or with two dashes, or a bare `-`, is ignored. */
  lemma ParseTokenMalformed(t: string)
    requires || (exists i :: 0 <= i < |t| && !IsDigit(t[i]) && t[i] != '-')
             || (exists i, j :: 0 <= i < j < |t| && t[i] == '-' && t[j] == '-')
             || t == "-"
    ensures ParseToken(t) == Malformed
  {
    var k := DashAt(t);
    if t == "-" {
      assert !IsDigit(t[0]);
      assert k == 0 && t[..k] == [] && t[k + 1..] == [];
    } else if i :| 0 <= i < |t| && !IsDigit(t[i]) && t[i] != '-' {
      assert !IsDigits(t);
      if k < |t| {
        if i < k {
          assert t[..k][i] == t[i];
        } else {
          assert t[k + 1..][i - k - 1] == t[i];
        }
      }
    } else {
      var i, j :| 0 <= i < j < |t| && t[i] == '-' && t[j] == '-';
      assert !IsDigit(t[i]);
      assert t[k + 1..][j - k - 1] == t[j];
    }
  }

  /** The one-based candidates `lo..hi` that a `for (p = lo; p <= hi; p++) pushIdx(p - 1)` loop offers, as zero-based values. */
  function Span(lo: int, hi: int): seq<int>
  {
    if lo <= hi then seq(hi - lo + 1, i => lo - 1 + i) else []
  }

  lemma SpanSnoc(lo: int, p: int)
    requires lo <= p
    ensures Span(lo, p) == Span(lo, p - 1) + [p - 1]
  {
  }

  /**
    The values a token passes to `pushIdx`, in order. A closed range is
    swapped if backwards and then clamped into `1..pageCount`; a single page
    number is not clamped.
   */
  function Candidates(tok: Token, pageCount: nat): seq<int>
  {
    match tok
    case Single(n) => [n - 1]
    case Closed(a, b) =>
      var lo := if a > b then b else a;
      var hi := if a > b then a else b;
      Span(Max(1, lo), Min(pageCount, hi))
    case Prefix(b) => Span(1, Min(pageCount, b))
    case Suffix(a) => Span(Max(1, a), pageCount)
    case Malformed => []
  }

  // ---------------------------------------------------------------------
  // Accumulation, as the source does it
  // ---------------------------------------------------------------------

  /** `pushIdx`: an index outside `[0, pageCount)` or already present is dropped, any other is appended. */
  function Push(indices: seq<nat>, x: int, pageCount: nat): seq<nat>
  {
    if 0 <= x < pageCount && x !in indices then indices + [x] else indices
  }

  /** `pushIdx` applied to each of `xs` in turn. */
  function PushAll(indices: seq<nat>, xs: seq<int>, pageCount: nat): seq<nat>
  {
    if xs == [] then indices
    else Push(PushAll(indices, xs[..|xs| - 1], pageCount), xs[|xs| - 1], pageCount)
  }

  /** The `indices` array after the token loop has processed `tokens`. */
  function Collect(tokens: seq<string>, pageCount: nat): seq<nat>
  {
    if tokens == [] then []
    else
      var prev := Collect(tokens[..|tokens| - 1], pageCount);
      PushAll(prev, Candidates(ParseToken(tokens[|tokens| - 1]), pageCount), pageCount)
  }

  /** What the token loop collects, or every page when that is nothing. */
  function Resolve(tokens: seq<string>, pageCount: nat): seq<nat>
  {
    var found := Collect(tokens, pageCount);
    if |found| > 0 then found else AllPages(pageCount)
  }

  /** `parsePageRange(input, pageCount)` */
  function PageRange(input: string, pageCount: nat): seq<nat>
  {
    if IsBlank(input) then AllPages(pageCount) else Resolve(Tokens(input), pageCount)
  }

  /** The early return for a blank expression agrees with the general path, so the result depends on the tokens alone. */
  lemma PageRangeByTokens(input: string, pageCount: nat)
    ensures PageRange(input, pageCount) == Resolve(Tokens(input), pageCount)
  {
    if IsBlank(input) {
      BlankHasNoTokens(input);
    }
  }

  /** Every index is a page of the document. */
  predicate AllBelow(s: seq<nat>, pageCount: nat)
  {
    forall i :: 0 <= i < |s| ==> s[i] < pageCount
  }

  /** `pushIdx` keeps what is already there, adds pages of the document only, and never repeats one. */
  lemma {:induction false} PushAllValid(indices: seq<nat>, xs: seq<int>, pageCount: nat)
    requires AllBelow(indices, pageCount) && Distinct(indices)
    ensures var r := PushAll(indices, xs, pageCount);
            |indices| <= |r| && r[..|indices|] == indices && AllBelow(r, pageCount) && Distinct(r)
  {
    if xs != [] {
      var prev := PushAll(indices, xs[..|xs| - 1], pageCount);
      PushAllValid(indices, xs[..|xs| - 1], pageCount);
      var x := xs[|xs| - 1];
      if 0 <= x < pageCount && x !in prev {
        assert (prev + [x])[..|indices|] == prev[..|indices|];
      }
    }
  }

  lemma {:induction false} CollectValid(tokens: seq<string>, pageCount: nat)
    ensures AllBelow(Collect(tokens, pageCount), pageCount) && Distinct(Collect(tokens, pageCount))
  {
    if tokens != [] {
      var init := tokens[..|tokens| - 1];
      CollectValid(init, pageCount);
      PushAllValid(Collect(init, pageCount), Candidates(ParseToken(tokens[|tokens| - 1]), pageCount), pageCount);
    }
  }

  /** What `parsePageRange` returns can be copied from the document: every index is a page, none twice. */
  lemma PageRangeValid(input: string, pageCount: nat)
    ensures AllBelow(PageRange(input, pageCount), pageCount)
    ensures Distinct(PageRange(input, pageCount))
  {
    CollectValid(Tokens(input), pageCount);
  }

  // ---------------------------------------------------------------------
  // The same result, read independently
  // ---------------------------------------------------------------------

  /** The values of `xs` that are pages of the document, in order. */
  function InRange(xs: seq<int>, pageCount: nat): seq<nat>
  {
    if xs == [] then []
    else
      var rest := InRange(xs[..|xs| - 1], pageCount);
      var x := xs[|xs| - 1];
      if 0 <= x < pageCount then rest + [x] else rest
  }

  /** The pages a token mentions: its candidates that lie in the document. */
  function Contribution(t: string, pageCount: nat): seq<nat>
  {
    InRange(Candidates(ParseToken(t), pageCount), pageCount)
  }

  /** The contribution of each token, in token order. */
  function Contributions(tokens: seq<string>, pageCount: nat): seq<seq<nat>>
  {
    seq(|tokens|, k requires 0 <= k < |tokens| => Contribution(tokens[k], pageCount))
  }

  /** The sequences of `ss` one after another. */
  function Flatten<T>(ss: seq<seq<T>>): seq<T>
  {
    if ss == [] then [] else Flatten(ss[..|ss| - 1]) + ss[|ss| - 1]
  }

  /** Every token's contribution, concatenated in token order. */
  function Mentioned(tokens: seq<string>, pageCount: nat): seq<nat>
  {
    Flatten(Contributions(tokens, pageCount))
  }

  /** `s` with every element that already occurred earlier removed. */
  function Dedup<T(==)>(s: seq<T>): seq<T>
  {
    if s == [] then []
    else
      var rest := Dedup(s[..|s| - 1]);
      if s[|s| - 1] in s[..|s| - 1] then rest else rest + [s[|s| - 1]]
  }

  lemma {:induction false} DedupElems<T>(s: seq<T>, x: T)
    ensures x in Dedup(s) <==> x in s
  {
    if s != [] {
      DedupElems(s[..|s| - 1], x);
      assert s == s[..|s| - 1] + [s[|s| - 1]];
    }
  }

  lemma {:induction false} DedupOfDistinct<T>(s: seq<T>)
    requires Distinct(s)
    ensures Dedup(s) == s
  {
    if s != [] {
      assert Distinct(s[..|s| - 1]);
      DedupOfDistinct(s[..|s| - 1]);
      assert s == s[..|s| - 1] + [s[|s| - 1]];
    }
  }

  lemma {:induction false} InRangeOfPages(xs: seq<int>, pageCount: nat)
    requires forall i :: 0 <= i < |xs| ==> 0 <= xs[i] < pageCount
    ensures InRange(xs, pageCount) == xs
  {
    if xs != [] {
      InRangeOfPages(xs[..|xs| - 1], pageCount);
      assert xs == xs[..|xs| - 1] + [xs[|xs| - 1]];
    }
  }

  /** Pushing onto the deduplicated `pre` is deduplicating `pre` followed by the in-range values. */
  lemma {:induction false} PushAllIsDedup(pre: seq<nat>, xs: seq<int>, pageCount: nat)
    ensures PushAll(Dedup(pre), xs, pageCount) == Dedup(pre + InRange(xs, pageCount))
  {
    if xs == [] {
      assert pre + [] == pre;
    } else {
      var ys, x := xs[..|xs| - 1], xs[|xs| - 1];
      PushAllIsDedup(pre, ys, pageCount);
      var s := pre + InRange(ys, pageCount);
      assert PushAll(Dedup(pre), xs, pageCount) == Push(Dedup(s), x, pageCount);
      if 0 <= x < pageCount {
        var n: nat := x;
        assert InRange(xs, pageCount) == InRange(ys, pageCount) + [n];
        assert pre + InRange(xs, pageCount) == s + [n];
        assert (s + [n])[..|s + [n]| - 1] == s;
        assert Dedup(s + [n]) == if n in s then Dedup(s) else Dedup(s) + [n];
        DedupElems(s, n);
      } else {
        assert InRange(xs, pageCount) == InRange(ys, pageCount);
      }
    }
  }

  lemma {:induction false} FlattenAppend<T>(a: seq<seq<T>>, b: seq<seq<T>>)
    ensures Flatten(a + b) == Flatten(a) + Flatten(b)
  {
    if b == [] {
      assert a + b == a;
    } else {
      assert (a + b)[..|a + b| - 1] == a + b[..|b| - 1];
      FlattenAppend(a, b[..|b| - 1]);
    }
  }

  lemma {:induction false} FlattenEmpty<T>(ss: seq<seq<T>>)
    ensures Flatten(ss) == [] <==> forall k :: 0 <= k < |ss| ==> ss[k] == []
  {
    if ss != [] {
      var init := ss[..|ss| - 1];
      FlattenEmpty(init);
      assert forall k :: 0 <= k < |init| ==> init[k] == ss[k];
    }
  }

  lemma ContributionsAppend(a: seq<string>, b: seq<string>, pageCount: nat)
    ensures Contributions(a + b, pageCount) == Contributions(a, pageCount) + Contributions(b, pageCount)
  {
  }

  /** Mentioned pages of a token list are those of its two parts. */
  lemma MentionedAppend(a: seq<string>, b: seq<string>, pageCount: nat)
    ensures Mentioned(a + b, pageCount) == Mentioned(a, pageCount) + Mentioned(b, pageCount)
  {
    ContributionsAppend(a, b, pageCount);
    FlattenAppend(Contributions(a, pageCount), Contributions(b, pageCount));
  }

  lemma MentionedEmpty(tokens: seq<string>, pageCount: nat)
    ensures Mentioned(tokens, pageCount) == [] <==>
            forall k :: 0 <= k < |tokens| ==> Contribution(tokens[k], pageCount) == []
  {
    var cs := Contributions(tokens, pageCount);
    FlattenEmpty(cs);
    assert forall k :: 0 <= k < |tokens| ==> cs[k] == Contribution(tokens[k], pageCount);
  }

  /** What the token loop collects is the mentioned pages with later duplicates dropped. */
  lemma {:induction false} CollectIsDedup(tokens: seq<string>, pageCount: nat)
    ensures Collect(tokens, pageCount) == Dedup(Mentioned(tokens, pageCount))
  {
    if tokens != [] {
      var init, last := tokens[..|tokens| - 1], tokens[|tokens| - 1];
      var cands := Candidates(ParseToken(last), pageCount);
      calc {
        Collect(tokens, pageCount);
        PushAll(Collect(init, pageCount), cands, pageCount);
        { CollectIsDedup(init, pageCount); }
        PushAll(Dedup(Mentioned(init, pageCount)), cands, pageCount);
        { PushAllIsDedup(Mentioned(init, pageCount), cands, pageCount); }
        Dedup(Mentioned(init, pageCount) + Contribution(last, pageCount));
        { MentionedSnoc(init, last, pageCount); assert init + [last] == tokens; }
        Dedup(Mentioned(tokens, pageCount));
      }
    }
  }

  lemma MentionedSnoc(init: seq<string>, last: string, pageCount: nat)
    ensures Mentioned(init + [last], pageCount) == Mentioned(init, pageCount) + Contribution(last, pageCount)
  {
    MentionedAppend(init, [last], pageCount);
    assert Contributions([last], pageCount) == [Contribution(last, pageCount)];
    var one := [Contribution(last, pageCount)];
    assert one[..0] == [];
    assert Flatten(one) == Flatten(one[..0]) + one[0];
  }

  /**
    The parser's result, characterised: the pages each token mentions, in
    token order, without later duplicates; or every page when that is empty
    (which covers a blank expression, since it has no tokens).
   */
  lemma PageRangeMeaning(input: string, pageCount: nat)
    ensures PageRange(input, pageCount) ==
            var d := Dedup(Mentioned(Tokens(input), pageCount));
            if d == [] then AllPages(pageCount) else d
  {
    CollectIsDedup(Tokens(input), pageCount);
    if IsBlank(input) {
      BlankHasNoTokens(input);
    }
  }

  /**
    The fallback to every page happens exactly when no token mentions a
    page of the document; otherwise the result is what the tokens collect.
   */
  lemma FallbackExactly(input: string, pageCount: nat)
    ensures (forall k :: 0 <= k < |Tokens(input)| ==> Contribution(Tokens(input)[k], pageCount) == [])
            <==> Collect(Tokens(input), pageCount) == []
    ensures (forall k :: 0 <= k < |Tokens(input)| ==> Contribution(Tokens(input)[k], pageCount) == [])
            ==> PageRange(input, pageCount) == AllPages(pageCount)
    ensures Collect(Tokens(input), pageCount) != [] ==> PageRange(input, pageCount) == Collect(Tokens(input), pageCount)
  {
    var ts := Tokens(input);
    CollectIsDedup(ts, pageCount);
    MentionedEmpty(ts, pageCount);
    var m := Mentioned(ts, pageCount);
    if m != [] {
      DedupElems(m, m[0]);
    }
    if IsBlank(input) {
      BlankHasNoTokens(input);
    }
  }

  /** Inserting one whitespace character anywhere (so, read backwards, deleting one) never changes the result. */
  lemma SpaceInsensitive(input: string, i: nat, c: char, pageCount: nat)
    requires i <= |input| && IsSpace(c)
    ensures PageRange(input[..i] + [c] + input[i..], pageCount) == PageRange(input, pageCount)
  {
    var spaced := input[..i] + [c] + input[i..];
    StripSpaceInsert(input, i, c);
    assert Tokens(spaced) == Tokens(input);
    PageRangeByTokens(spaced, pageCount);
    PageRangeByTokens(input, pageCount);
  }

  /**
    A trailing token list that mentions no page of the document (malformed
    tokens, single numbers out of range, ranges that clamp to nothing)
    changes nothing.
   */
  lemma IgnoredTokens(s: string, t: string, pageCount: nat)
    requires forall k :: 0 <= k < |Tokens(t)| ==> Contribution(Tokens(t)[k], pageCount) == []
    ensures PageRange(s + "," + t, pageCount) == PageRange(s, pageCount)
  {
    TokensAppend(s, t);
    MentionedAppend(Tokens(s), Tokens(t), pageCount);
    MentionedEmpty(Tokens(t), pageCount);
    assert Mentioned(Tokens(s), pageCount) + [] == Mentioned(Tokens(s), pageCount);
    PageRangeMeaning(s + "," + t, pageCount);
    PageRangeMeaning(s, pageCount);
  }

  /** A single page number outside `1..pageCount` contributes nothing. */
  lemma SingleOutOfRangeIgnored(s: string, t: string, n: nat, pageCount: nat)
    requires ParseToken(t) == Single(n) && (n == 0 || n > pageCount)
    ensures PageRange(s + "," + t, pageCount) == PageRange(s, pageCount)
  {
    ParsedIsTokenText(t);
    TokensOfOne(t);
    var c: seq<int> := [n as int - 1];
    assert c[..0] == [];
    assert InRange(c, pageCount) == InRange([], pageCount);
    assert Contribution(t, pageCount) == [];
    IgnoredTokens(s, t, pageCount);
  }

  /** A token of none of the four forms contributes nothing. */
  lemma MalformedIgnored(s: string, t: string, pageCount: nat)
    requires IsTokenText(t)
    requires ParseToken(t) == Malformed
    ensures PageRange(s + "," + t, pageCount) == PageRange(s, pageCount)
  {
    TokensOfOne(t);
    IgnoredTokens(s, t, pageCount);
  }

  // ---------------------------------------------------------------------
  // A lone token
  // ---------------------------------------------------------------------

  /** `t` could be a token: non-empty, with neither a comma nor whitespace. */
  predicate IsTokenText(t: string)
  {
    t != [] && forall i :: 0 <= i < |t| ==> t[i] != ',' && !IsSpace(t[i])
  }

  /** Every character of a token of one of the four forms is a digit or `-`, so it is a token text. */
  lemma ParsedIsTokenText(t: string)
    requires ParseToken(t) != Malformed
    ensures IsTokenText(t)
    ensures forall i :: 0 <= i < |t| ==> IsDigit(t[i]) || t[i] == '-'
  {
    if !IsDigits(t) {
      var k := DashAt(t);
      var left, right := t[..k], t[k + 1..];
      forall i | 0 <= i < |t| ensures IsDigit(t[i]) || t[i] == '-' {
        if i < k {
          assert t[i] == left[i];
        } else if i > k {
          assert t[i] == right[i - k - 1];
        }
      }
    }
  }

  /** A lone token collects its candidates, or falls back if none is a page. */
  lemma LoneToken(t: string, pageCount: nat)
    requires IsTokenText(t)
    ensures PageRange(t, pageCount) ==
            var d := PushAll([], Candidates(ParseToken(t), pageCount), pageCount);
            if d == [] then AllPages(pageCount) else d
  {
    TokensOfOne(t);
    PageRangeByTokens(t, pageCount);
    assert [t][..0] == [];
    assert Collect([t], pageCount) == PushAll([], Candidates(ParseToken(t), pageCount), pageCount);
  }

  /** A clamped span `lo..hi` inside the document yields exactly those pages, ascending. */
  lemma SpanPushed(lo: int, hi: int, pageCount: nat)
    requires 1 <= lo && hi <= pageCount
    ensures PushAll([], Span(lo, hi), pageCount) == if lo <= hi then Interval(lo - 1, hi) else []
  {
    var xs := Span(lo, hi);
    PushAllIsDedup([], xs, pageCount);
    assert InRange(xs, pageCount) == xs by {
      InRangeOfPages(xs, pageCount);
    }
    assert [] + xs == xs;
    if lo <= hi {
      SpanIsInterval(lo, hi);
      DedupOfDistinct(Interval(lo - 1, hi));
    }
  }

  lemma SpanIsInterval(lo: int, hi: int)
    requires 1 <= lo <= hi
    ensures Span(lo, hi) == Interval(lo - 1, hi)
    ensures Distinct(Interval(lo - 1, hi))
  {
  }

  /** A lone token whose candidates are a clamped span yields that span, or every page if it is empty. */
  lemma LoneSpan(t: string, lo: int, hi: int, pageCount: nat)
    requires IsTokenText(t)
    requires 1 <= lo && hi <= pageCount
    requires Candidates(ParseToken(t), pageCount) == Span(lo, hi)
    ensures PageRange(t, pageCount) == if lo <= hi then Interval(lo - 1, hi) else AllPages(pageCount)
  {
    SpanPushed(lo, hi, pageCount);
    LoneToken(t, pageCount);
  }

  /** `N` alone: page `N` if it exists, otherwise every page. */
  lemma LoneSingle(t: string, n: nat, pageCount: nat)
    requires ParseToken(t) == Single(n)
    ensures PageRange(t, pageCount) == if 1 <= n <= pageCount then [n - 1] else AllPages(pageCount)
  {
    var c: seq<int> := [n as int - 1];
    assert Candidates(ParseToken(t), pageCount) == c;
    assert PushAll([], c, pageCount) == Push([], n as int - 1, pageCount) by {
      assert c[..0] == [];
    }
    ParsedIsTokenText(t);
    LoneToken(t, pageCount);
  }

  /**
    `A-B` alone: the bounds are put in order and clamped into
    `1..pageCount`; the pages between them, ascending, or every page if the
    clamped range is empty.
   */
  lemma LoneClosed(t: string, a: nat, b: nat, pageCount: nat)
    requires ParseToken(t) == Closed(a, b)
    ensures PageRange(t, pageCount) ==
            var lo := Max(1, Min(a, b));
            var hi := Min(pageCount, Max(a, b));
            if lo <= hi then Interval(lo - 1, hi) else AllPages(pageCount)
  {
    ParsedIsTokenText(t);
    LoneSpan(t, Max(1, Min(a, b)), Min(pageCount, Max(a, b)), pageCount);
  }

  /** In the simple case `1 <= A <= B <= pageCount`, `A-B` yields pages `A-1 .. B-1`. */
  lemma LoneClosedInside(t: string, a: nat, b: nat, pageCount: nat)
    requires ParseToken(t) == Closed(a, b)
    requires 1 <= a <= b <= pageCount
    ensures PageRange(t, pageCount) == Interval(a - 1, b)
  {
    assert Max(1, Min(a, b)) == a && Min(pageCount, Max(a, b)) == b;
    LoneClosed(t, a, b, pageCount);
  }

  /** Two tokens offering the same candidates are interchangeable at the end of any expression. */
  lemma SameCandidatesSameResult(s: string, t: string, u: string, pageCount: nat)
    requires IsTokenText(t) && IsTokenText(u)
    requires Candidates(ParseToken(t), pageCount) == Candidates(ParseToken(u), pageCount)
    ensures PageRange(s + "," + t, pageCount) == PageRange(s + "," + u, pageCount)
  {
    var ts := Tokens(s);
    TokensAppend(s, t);
    TokensAppend(s, u);
    TokensOfOne(t);
    TokensOfOne(u);
    PageRangeByTokens(s + "," + t, pageCount);
    PageRangeByTokens(s + "," + u, pageCount);
    assert (ts + [t])[..|ts|] == ts && (ts + [u])[..|ts|] == ts;
    assert Collect(ts + [t], pageCount) == Collect(ts + [u], pageCount);
  }

  /** Two token lists that collect the same indices still do after the same tokens are appended to both. */
  lemma {:induction false} CollectSameAfter(p: seq<string>, q: seq<string>, us: seq<string>, pageCount: nat)
    requires Collect(p, pageCount) == Collect(q, pageCount)
    ensures Collect(p + us, pageCount) == Collect(q + us, pageCount)
  {
    if us == [] {
      assert p + us == p && q + us == q;
    } else {
      var init, last := us[..|us| - 1], us[|us| - 1];
      CollectSameAfter(p, q, init, pageCount);
      assert (p + us)[..|p + us| - 1] == p + init && (p + us)[|p + us| - 1] == last;
      assert (q + us)[..|q + us| - 1] == q + init && (q + us)[|q + us| - 1] == last;
    }
  }

  /** Two tokens offering the same candidates collect the same indices wherever they stand in the token list. */
  lemma CollectSameCandidates(ts: seq<string>, t: string, u: string, us: seq<string>, pageCount: nat)
    requires Candidates(ParseToken(t), pageCount) == Candidates(ParseToken(u), pageCount)
    ensures Collect(ts + [t] + us, pageCount) == Collect(ts + [u] + us, pageCount)
  {
    assert Collect(ts + [t], pageCount) == Collect(ts + [u], pageCount) by {
      assert (ts + [t])[..|ts|] == ts && (ts + [u])[..|ts|] == ts;
    }
    CollectSameAfter(ts + [t], ts + [u], us, pageCount);
  }

  /** Two tokens offering the same candidates are interchangeable at any position of an expression. */
  lemma SameCandidatesAnywhere(s: string, t: string, u: string, v: string, pageCount: nat)
    requires IsTokenText(t) && IsTokenText(u)
    requires Candidates(ParseToken(t), pageCount) == Candidates(ParseToken(u), pageCount)
    ensures PageRange(s + "," + t + "," + v, pageCount) == PageRange(s + "," + u + "," + v, pageCount)
  {
    var ts, vs := Tokens(s), Tokens(v);
    assert Tokens(s + "," + t + "," + v) == ts + [t] + vs by {
      TokensAppend(s + "," + t, v);
      TokensAppend(s, t);
      TokensOfOne(t);
    }
    assert Tokens(s + "," + u + "," + v) == ts + [u] + vs by {
      TokensAppend(s + "," + u, v);
      TokensAppend(s, u);
      TokensOfOne(u);
    }
    CollectSameCandidates(ts, t, u, vs, pageCount);
    PageRangeByTokens(s + "," + t + "," + v, pageCount);
    PageRangeByTokens(s + "," + u + "," + v, pageCount);
  }

  /** A backwards range `B-A` offers the same candidates as `A-B`, so it means the same at the end of an expression or anywhere inside one. */
  lemma ClosedSwapped(s: string, t: string, u: string, v: string, a: nat, b: nat, pageCount: nat)
    requires ParseToken(t) == Closed(a, b) && ParseToken(u) == Closed(b, a)
    ensures Candidates(ParseToken(t), pageCount) == Candidates(ParseToken(u), pageCount)
    ensures PageRange(s + "," + t, pageCount) == PageRange(s + "," + u, pageCount)
    ensures PageRange(s + "," + t + "," + v, pageCount) == PageRange(s + "," + u + "," + v, pageCount)
  {
    ParsedIsTokenText(t);
    ParsedIsTokenText(u);
    SameCandidatesSameResult(s, t, u, pageCount);
    SameCandidatesAnywhere(s, t, u, v, pageCount);
  }

  /** `-B` alone: pages `0 .. min(B, pageCount) - 1`, or every page if that is empty. */
  lemma LonePrefix(t: string, b: nat, pageCount: nat)
    requires ParseToken(t) == Prefix(b)
    ensures PageRange(t, pageCount) ==
            var hi := Min(pageCount, b);
            if 1 <= hi then Interval(0, hi) else AllPages(pageCount)
  {
    ParsedIsTokenText(t);
    LoneSpan(t, 1, Min(pageCount, b), pageCount);
  }

  /** `A-` alone: pages `max(A, 1) - 1 .. pageCount - 1`, or every page if that is empty. */
  lemma LoneSuffix(t: string, a: nat, pageCount: nat)
    requires ParseToken(t) == Suffix(a)
    ensures PageRange(t, pageCount) ==
            var lo := Max(1, a);
            if lo <= pageCount then Interval(lo - 1, pageCount) else AllPages(pageCount)
  {
    var lo := Max(1, a);
    assert Candidates(ParseToken(t), pageCount) == Span(lo, pageCount);
    ParsedIsTokenText(t);
    LoneSpan(t, lo, pageCount, pageCount);
  }

  // ---------------------------------------------------------------------
  // The parser as the source runs it
  // ---------------------------------------------------------------------

  /** `pushIdx`, on the parser's `indices` and `seen`. */
  method PushIdx(indices: seq<nat>, seen: set<nat>, idx: int, pageCount: nat)
    returns (indices': seq<nat>, seen': set<nat>)
    requires seen == Elems(indices)
    ensures indices' == Push(indices, idx, pageCount)
    ensures seen' == Elems(indices')
  {
    if idx < 0 || idx >= pageCount {
      return indices, seen;
    }
    if idx in seen {
      return indices, seen;
    }
    seen' := seen + {idx};
    indices' := indices + [idx];
  }

  /** `for (let p = lo; p <= hi; p++) pushIdx(p - 1);` */
  method PushSpan(indices: seq<nat>, seen: set<nat>, lo: int, hi: int, pageCount: nat)
    returns (indices': seq<nat>, seen': set<nat>)
    requires seen == Elems(indices)
    ensures indices' == PushAll(indices, Span(lo, hi), pageCount)
    ensures seen' == Elems(indices')
  {
    indices', seen' := indices, seen;
    var p := lo;
    while p <= hi
      invariant lo <= p && (p <= hi + 1 || p == lo)
      invariant indices' == PushAll(indices, Span(lo, p - 1), pageCount)
      invariant seen' == Elems(indices')
      decreases hi - p
    {
      SpanSnoc(lo, p);
      indices', seen' := PushIdx(indices', seen', p - 1, pageCount);
      p := p + 1;
    }
  }

  /** One pass of the token loop: the `pushIdx` calls the token's form makes. */
  method PushToken(indices: seq<nat>, seen: set<nat>, tok: Token, pageCount: nat)
    returns (indices': seq<nat>, seen': set<nat>)
    requires seen == Elems(indices)
    ensures indices' == PushAll(indices, Candidates(tok, pageCount), pageCount)
    ensures seen' == Elems(indices')
  {
    match tok
    case Single(n) =>
      ghost var c: seq<int> := [n as int - 1];
      assert c[..0] == [];
      assert PushAll(indices, c, pageCount) == Push(indices, n - 1, pageCount);
      indices', seen' := PushIdx(indices, seen, n - 1, pageCount);
    case Closed(a0, b0) =>
      var a: int, b: int := a0, b0;
      if a > b {
        a, b := b, a;
      }
      a := Max(1, a);
      b := Min(pageCount, b);
      indices', seen' := PushSpan(indices, seen, a, b, pageCount);
    case Prefix(b0) =>
      var b := Min(pageCount, b0);
      indices', seen' := PushSpan(indices, seen, 1, b, pageCount);
    case Suffix(a0) =>
      var a := Max(1, a0);
      indices', seen' := PushSpan(indices, seen, a, pageCount, pageCount);
    case Malformed =>
      indices', seen' := indices, seen;
  }

  /** `parsePageRange`: the token loop over `indices` and `seen`, then the fallback. */
  method ParsePageRange(input: string, pageCount: nat) returns (indices: seq<nat>)
    ensures indices == PageRange(input, pageCount)
    ensures AllBelow(indices, pageCount) && Distinct(indices)
  {
    PageRangeValid(input, pageCount);
    if IsBlank(input) {
      return AllPages(pageCount);
    }
    var tokens := Tokens(input);
    assert PageRange(input, pageCount) == Resolve(tokens, pageCount);
    indices := [];
    var seen: set<nat> := {};
    for ti := 0 to |tokens|
      invariant indices == Collect(tokens[..ti], pageCount)
      invariant seen == Elems(indices)
    {
      assert tokens[..ti + 1][..ti] == tokens[..ti];
      indices, seen := PushToken(indices, seen, ParseToken(tokens[ti]), pageCount);
    }
    assert tokens[..|tokens|] == tokens;
    assert indices == Collect(tokens, pageCount);
    if |indices| == 0 {
      indices := AllPages(pageCount);
    }
  }
}
