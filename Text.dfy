/**
  Character classes and string operations the merger relies on: the
  ECMAScript whitespace class (shared by `\s` in regular expressions and by
  `String.prototype.trim`), decimal digits, comma splitting, trimming and an
  ASCII case-insensitive suffix test.
 */
module Text {

  /** ECMAScript WhiteSpace and LineTerminator code points. */
  predicate IsSpace(c: char)
  {
    || c == ' ' || c == '\t' || c == '\n' || c == '\r'
    || c == '\U{000B}' || c == '\U{000C}'
    || c == '\U{00A0}' || c == '\U{1680}'
    || ('\U{2000}' <= c <= '\U{200A}')
    || c == '\U{2028}' || c == '\U{2029}' || c == '\U{202F}'
    || c == '\U{205F}' || c == '\U{3000}' || c == '\U{FEFF}'
  }

  /** Every character of `s` is whitespace (this includes the empty string). */
  predicate IsBlank(s: string)
  {
    forall i :: 0 <= i < |s| ==> IsSpace(s[i])
  }

  predicate IsDigit(c: char)
  {
    '0' <= c <= '9'
  }

  /** `s` matches the regular expression `^\d+$`. */
  predicate IsDigits(s: string)
  {
    |s| > 0 && forall i :: 0 <= i < |s| ==> IsDigit(s[i])
  }

  /** The decimal value of a string of digits, as `Number(s)` gives it (unbounded). */
  function DigitsValue(s: string): nat
    requires forall i :: 0 <= i < |s| ==> IsDigit(s[i])
  {
    if s == [] then 0
    else
      assert IsDigit(s[|s| - 1]);
      DigitsValue(s[..|s| - 1]) * 10 + (s[|s| - 1] as int - '0' as int)
  }

  /** `s.replace(/\s+/g, '')`: `s` with every whitespace character removed. */
  function StripSpace(s: string): string
  {
    if s == [] then []
    else
      var rest := StripSpace(s[1..]);
      if IsSpace(s[0]) then rest else [s[0]] + rest
  }

  /** Stripping leaves no whitespace, and every character it keeps comes from `s`. */
  lemma {:induction false} StripSpaceLeavesNoSpace(s: string)
    ensures forall c :: c in StripSpace(s) ==> !IsSpace(c) && c in s
  {
    if s != [] {
      StripSpaceLeavesNoSpace(s[1..]);
    }
  }

  /** Stripping leaves nothing exactly when `s` is blank. */
  lemma {:induction false} StripSpaceBlank(s: string)
    ensures StripSpace(s) == [] <==> IsBlank(s)
  {
    if s != [] {
      StripSpaceBlank(s[1..]);
      assert IsBlank(s) <==> IsSpace(s[0]) && IsBlank(s[1..]);
    }
  }

  lemma {:induction false} StripSpaceAppend(a: string, b: string)
    ensures StripSpace(a + b) == StripSpace(a) + StripSpace(b)
  {
    if a == [] {
      assert a + b == b;
    } else {
      assert (a + b)[1..] == a[1..] + b;
      StripSpaceAppend(a[1..], b);
    }
  }

  /** Inserting a whitespace character anywhere does not change what stripping leaves. */
  lemma StripSpaceInsert(s: string, i: nat, c: char)
    requires i <= |s| && IsSpace(c)
    ensures StripSpace(s[..i] + [c] + s[i..]) == StripSpace(s)
  {
    var a, b := s[..i], s[i..];
    var ac := a + [c];
    assert StripSpace(ac) == StripSpace(a) by {
      StripSpaceAppend(a, [c]);
      assert [c][1..] == [];
      assert StripSpace([c]) == [];
      assert StripSpace(a) + [] == StripSpace(a);
    }
    assert StripSpace(ac + b) == StripSpace(a) + StripSpace(b) by {
      StripSpaceAppend(ac, b);
    }
    assert StripSpace(a) + StripSpace(b) == StripSpace(s) by {
      StripSpaceAppend(a, b);
      assert a + b == s;
    }
  }

  /** A string with no whitespace is left as it is. */
  lemma {:induction false} StripSpaceNoSpace(s: string)
    requires forall i :: 0 <= i < |s| ==> !IsSpace(s[i])
    ensures StripSpace(s) == s
  {
    if s != [] {
      StripSpaceNoSpace(s[1..]);
    }
  }

  /** `s.split(sep)`: the pieces between occurrences of `sep`, always at least one. */
  function Split(s: string, sep: char): (r: seq<string>)
    ensures |r| > 0
    ensures forall k, i :: 0 <= k < |r| && 0 <= i < |r[k]| ==> r[k][i] != sep
  {
    if s == [] then [[]]
    else
      var rest := Split(s[1..], sep);
      if s[0] == sep then [[]] + rest
      else [[s[0]] + rest[0]] + rest[1..]
  }

  lemma {:induction false} SplitNoSep(s: string, sep: char)
    requires forall i :: 0 <= i < |s| ==> s[i] != sep
    ensures Split(s, sep) == [s]
  {
    if s != [] {
      SplitNoSep(s[1..], sep);
      assert [s[0]] + s[1..] == s;
    }
  }

  /** Splitting at one separator splits the two sides independently. */
  lemma {:induction false} SplitJoin(a: string, sep: char, b: string)
    ensures Split(a + [sep] + b, sep) == Split(a, sep) + Split(b, sep)
  {
    if a == [] {
      assert a + [sep] + b == [sep] + b;
      assert ([sep] + b)[1..] == b;
    } else {
      assert (a + [sep] + b)[1..] == a[1..] + [sep] + b;
      SplitJoin(a[1..], sep, b);
    }
  }

  /** `.filter(Boolean)` on strings: the non-empty ones, in order. */
  function DropEmpty(ss: seq<string>): (r: seq<string>)
    ensures forall k :: 0 <= k < |r| ==> r[k] != [] && r[k] in ss
  {
    if ss == [] then []
    else
      var rest := DropEmpty(ss[..|ss| - 1]);
      if ss[|ss| - 1] == [] then rest else rest + [ss[|ss| - 1]]
  }

  lemma {:induction false} DropEmptyAppend(a: seq<string>, b: seq<string>)
    ensures DropEmpty(a + b) == DropEmpty(a) + DropEmpty(b)
  {
    if b == [] {
      assert a + b == a;
    } else {
      assert (a + b)[..|a + b| - 1] == a + b[..|b| - 1];
      DropEmptyAppend(a, b[..|b| - 1]);
    }
  }

  /** The number of whitespace characters `s` starts with. */
  function LeadingSpace(s: string): (k: nat)
    ensures k <= |s|
    ensures forall i :: 0 <= i < k ==> IsSpace(s[i])
    ensures k < |s| ==> !IsSpace(s[k])
  {
    if s != [] && IsSpace(s[0]) then 1 + LeadingSpace(s[1..]) else 0
  }

  /** Where the whitespace that `s` ends with begins. */
  function TrailingSpace(s: string): (k: nat)
    ensures k <= |s|
    ensures forall i :: k <= i < |s| ==> IsSpace(s[i])
    ensures 0 < k ==> !IsSpace(s[k - 1])
  {
    if s != [] && IsSpace(s[|s| - 1]) then TrailingSpace(s[..|s| - 1]) else |s|
  }

  /**
    `s.trim()`: the leading and the trailing whitespace removed. The result
    neither starts nor ends with whitespace, and it is empty exactly when
    `s` is blank.
   */
  function Trim(s: string): (r: string)
    ensures |r| <= |s|
    ensures r == [] || (!IsSpace(r[0]) && !IsSpace(r[|r| - 1]))
    ensures r == [] <==> IsBlank(s)
    ensures exists a, b :: 0 <= a <= b <= |s| && r == s[a..b] && IsBlank(s[..a]) && IsBlank(s[b..])
  {
    var a := LeadingSpace(s);
    var t := s[a..];
    var b := a + TrailingSpace(t);
    var r := t[..TrailingSpace(t)];
    assert r != [] ==> r[0] == t[0];
    assert IsBlank(s) ==> t == [];
    assert r == s[a..b];
    assert IsBlank(s[..a]);
    assert IsBlank(s[b..]) by {
      assert forall i :: 0 <= i < |s| - b ==> s[b..][i] == t[TrailingSpace(t) + i];
    }
    r
  }

  /** A string that neither starts nor ends with whitespace is its own trim. */
  lemma TrimUnchanged(s: string)
    requires s == [] || (!IsSpace(s[0]) && !IsSpace(s[|s| - 1]))
    ensures Trim(s) == s
  {
    if s != [] {
      assert LeadingSpace(s) == 0;
      assert s[0..] == s;
      assert TrailingSpace(s) == |s|;
    }
  }

  /** `String.prototype.toLowerCase` on one character, for the ASCII letters. */
  function ToLowerAscii(c: char): (r: char)
  {
    if 'A' <= c <= 'Z' then (c as int + 32) as char else c
  }

  /**
    `s.toLowerCase().endsWith(suffix)` for a lower-case ASCII `suffix`: the
    last `|suffix|` characters of `s` lower-case to `suffix`.
   */
  predicate EndsWithIgnoringCase(s: string, suffix: string)
  {
    |suffix| <= |s| &&
    forall i :: 0 <= i < |suffix| ==> ToLowerAscii(s[|s| - |suffix| + i]) == suffix[i]
  }

  /** A lower-case suffix appended to any string is one it ends with. */
  lemma EndsWithAppended(s: string, suffix: string)
    requires forall i :: 0 <= i < |suffix| ==> ToLowerAscii(suffix[i]) == suffix[i]
    ensures EndsWithIgnoringCase(s + suffix, suffix)
  {
    var t := s + suffix;
    forall i | 0 <= i < |suffix| ensures ToLowerAscii(t[|t| - |suffix| + i]) == suffix[i] {
      assert t[|t| - |suffix| + i] == suffix[i];
    }
  }
}
