/**
 * The text operations of Rust's `str` that the client relies on:
 * `replace`, `ends_with`, `split`, `parse::<i32>`, `to_lowercase` and `trim`.
 * Strings are sequences of Unicode scalar values.
 */
module Strings {
  import opened Wrappers

  // ---------------------------------------------------------------------------
  // Occurrences, prefixes, suffixes
  // ---------------------------------------------------------------------------

  /** `pat` occurs in `s` starting at index `i`. */
  predicate OccursAt(s: string, pat: string, i: nat)
  {
    i + |pat| <= |s| && s[i..i + |pat|] == pat
  }

  predicate StartsWith(s: string, prefix: string)
  {
    |prefix| <= |s| && s[..|prefix|] == prefix
  }

  predicate EndsWith(s: string, suffix: string)
  {
    |suffix| <= |s| && s[|s| - |suffix|..] == suffix
  }

  /** An occurrence in a suffix of `s` is an occurrence in `s`, shifted. */
  lemma OccursShift(s: string, pat: string, k: nat, i: nat)
    requires k <= |s|
    ensures OccursAt(s[k..], pat, i) <==> OccursAt(s, pat, i + k)
  {
    if i + |pat| <= |s| - k {
      assert s[k..][i..i + |pat|] == s[i + k..i + k + |pat|];
    }
  }

  // ---------------------------------------------------------------------------
  // Replace: Rust's `str::replace` for a non-empty pattern
  // ---------------------------------------------------------------------------

  /**
   * Scans `s` from the left and replaces each leftmost, non-overlapping
   * occurrence of `pat` by `rep`; the scan resumes after the replaced text.
   */
  function Replace(s: string, pat: string, rep: string): string
    requires pat != []
    decreases |s|
  {
    if |s| < |pat| then s
    else if s[..|pat|] == pat then rep + Replace(s[|pat|..], pat, rep)
    else [s[0]] + Replace(s[1..], pat, rep)
  }

  /** Text without the pattern comes back unchanged. */
  lemma {:induction false} ReplaceWithoutOccurrence(s: string, pat: string, rep: string)
    requires pat != []
    requires forall i: nat :: !OccursAt(s, pat, i)
    ensures Replace(s, pat, rep) == s
    decreases |s|
  {
    if |s| >= |pat| {
      assert !OccursAt(s, pat, 0);
      forall i: nat ensures !OccursAt(s[1..], pat, i) {
        OccursShift(s, pat, 1, i);
      }
      ReplaceWithoutOccurrence(s[1..], pat, rep);
      assert s == [s[0]] + s[1..];
    }
  }

  /** Replacing a pattern by itself changes nothing: only occurrences are touched. */
  lemma {:induction false} ReplaceBySelf(s: string, pat: string)
    requires pat != []
    ensures Replace(s, pat, pat) == s
    decreases |s|
  {
    if |s| >= |pat| {
      if s[..|pat|] == pat {
        ReplaceBySelf(s[|pat|..], pat);
        assert s == s[..|pat|] + s[|pat|..];
      } else {
        ReplaceBySelf(s[1..], pat);
        assert s == [s[0]] + s[1..];
      }
    }
  }

  /** A text with exactly one occurrence, at the end of `a`, gets exactly that one replaced. */
  lemma {:induction false} ReplaceSingle(a: string, pat: string, b: string, rep: string)
    requires pat != []
    requires forall i: nat :: i != |a| ==> !OccursAt(a + pat + b, pat, i)
    ensures Replace(a + pat + b, pat, rep) == a + rep + b
    decreases |a|
  {
    var s := a + pat + b;
    if a == [] {
      assert s == pat + b;
      assert s[..|pat|] == pat;
      assert s[|pat|..] == b;
      forall i: nat ensures !OccursAt(b, pat, i) {
        OccursShift(s, pat, |pat|, i);
      }
      ReplaceWithoutOccurrence(b, pat, rep);
    } else {
      assert !OccursAt(s, pat, 0);
      assert s[1..] == a[1..] + pat + b;
      forall i: nat | i != |a[1..]| ensures !OccursAt(a[1..] + pat + b, pat, i) {
        OccursShift(s, pat, 1, i);
      }
      assert Replace(s, pat, rep) == [s[0]] + Replace(s[1..], pat, rep);
      ReplaceSingle(a[1..], pat, b, rep);
      assert a == [a[0]] + a[1..];
    }
  }

  lemma HeadsAgree(r: string, q: string)
    requires q != [] && StartsWith(r, q)
    ensures r[0] == q[0]
  {
  }

  lemma OccurrenceHead(r: string, pat: string, i: nat)
    requires pat != [] && OccursAt(r, pat, i)
    ensures r[i] == pat[0]
  {
    assert r[i..i + |pat|][0] == r[i];
  }

  /**
   * A text whose only occurrence of the pattern's first character is at the
   * start of its one occurrence gets that occurrence, and nothing else, replaced.
   */
  lemma ReplaceOnlyOccurrence(a: string, pat: string, b: string, rep: string)
    requires pat != []
    requires pat[0] !in a && pat[0] !in pat[1..] && pat[0] !in b
    ensures Replace(a + pat + b, pat, rep) == a + rep + b
  {
    var s := a + pat + b;
    forall i: nat | i != |a| ensures !OccursAt(s, pat, i) {
      if OccursAt(s, pat, i) {
        OccurrenceHead(s, pat, i);
        assert false;
      }
    }
    ReplaceSingle(a, pat, b, rep);
  }

  /** A prefix free of the pattern's first character is copied, and its first occurrence right after it replaced. */
  lemma {:induction false} ReplaceAfterClearPrefix(a: string, pat: string, t: string, rep: string)
    requires pat != [] && pat[0] !in a
    ensures Replace(a + pat + t, pat, rep) == a + rep + Replace(t, pat, rep)
    decreases |a|
  {
    var s := a + pat + t;
    if a == [] {
      assert s == pat + t;
      assert s[..|pat|] == pat;
      assert s[|pat|..] == t;
    } else {
      assert |s| >= |pat|;
      assert s[..|pat|] != pat by {
        assert s[..|pat|][0] == a[0];
      }
      assert s[1..] == a[1..] + pat + t;
      ReplaceAfterClearPrefix(a[1..], pat, t, rep);
      calc {
        Replace(s, pat, rep);
        [s[0]] + Replace(s[1..], pat, rep);
        [a[0]] + (a[1..] + rep + Replace(t, pat, rep));
        { assert a == [a[0]] + a[1..]; }
        a + rep + Replace(t, pat, rep);
      }
    }
  }

  lemma EndsWithAppended(s: string, suffix: string)
    ensures EndsWith(s + suffix, suffix)
  {
    assert (s + suffix)[|s|..] == suffix;
  }

  /** Two occurrences, each after text free of the pattern's first character, are both replaced. */
  lemma ReplaceTwoOccurrences(a: string, pat: string, b: string, rep: string)
    requires pat != []
    requires pat[0] !in a && pat[0] !in pat[1..] && pat[0] !in b
    ensures Replace(a + pat + b + pat, pat, rep) == a + rep + b + rep
  {
    var t := b + pat;
    assert a + pat + b + pat == a + pat + t;
    ReplaceAfterClearPrefix(a, pat, t, rep);
    assert t == b + pat + [];
    ReplaceOnlyOccurrence(b, pat, [], rep);
    assert Replace(t, pat, rep) == b + rep + [];
    assert a + rep + (b + rep + []) == a + rep + b + rep;
  }

  /** The pieces with `sep` between each two of them. */
  function Interleave(parts: seq<string>, sep: string): string
    decreases |parts|
  {
    if |parts| == 0 then ""
    else if |parts| == 1 then parts[0]
    else parts[0] + sep + Interleave(parts[1..], sep)
  }

  /** A last piece is appended after one more separator. */
  lemma {:induction false} InterleaveSnoc(parts: seq<string>, x: string, sep: string)
    requires parts != []
    ensures Interleave(parts + [x], sep) == Interleave(parts, sep) + sep + x
    decreases |parts|
  {
    if |parts| > 1 {
      assert (parts + [x])[1..] == parts[1..] + [x];
      InterleaveSnoc(parts[1..], x, sep);
    }
  }

  /** Text free of the pattern's first character comes back unchanged. */
  lemma ReplaceClearText(s: string, pat: string, rep: string)
    requires pat != [] && pat[0] !in s
    ensures Replace(s, pat, rep) == s
  {
    forall i: nat ensures !OccursAt(s, pat, i) {
      if OccursAt(s, pat, i) {
        OccurrenceHead(s, pat, i);
      }
    }
    ReplaceWithoutOccurrence(s, pat, rep);
  }

  /**
   * Pieces free of the pattern's first character, joined by the pattern, have
   * every one of its occurrences replaced: the result joins them by `rep`.
   */
  lemma {:induction false} ReplaceInterleaved(parts: seq<string>, pat: string, rep: string)
    requires pat != [] && pat[0] !in pat[1..]
    requires forall k :: 0 <= k < |parts| ==> pat[0] !in parts[k]
    ensures Replace(Interleave(parts, pat), pat, rep) == Interleave(parts, rep)
    decreases |parts|
  {
    if |parts| == 1 {
      ReplaceClearText(parts[0], pat, rep);
    } else if |parts| > 1 {
      ReplaceAfterClearPrefix(parts[0], pat, Interleave(parts[1..], pat), rep);
      ReplaceInterleaved(parts[1..], pat, rep);
    }
  }

  /** The same for a text that ends with the pattern: it ends with it, and every occurrence is replaced. */
  lemma ReplaceInterleavedEnding(parts: seq<string>, pat: string, rep: string)
    requires pat != [] && pat[0] !in pat[1..]
    requires |parts| >= 2 && parts[|parts| - 1] == ""
    requires forall k :: 0 <= k < |parts| ==> pat[0] !in parts[k]
    ensures EndsWith(Interleave(parts, pat), pat)
    ensures Replace(Interleave(parts, pat), pat, rep) == Interleave(parts, rep)
  {
    var init := parts[..|parts| - 1];
    assert parts == init + [""];
    InterleaveSnoc(init, "", pat);
    assert Interleave(parts, pat) == Interleave(init, pat) + pat;
    EndsWithAppended(Interleave(init, pat), pat);
    ReplaceInterleaved(parts, pat, rep);
  }

  /** `rep` is non-empty and shares no character with `pat`. */
  predicate ForeignTo(rep: string, pat: string)
  {
    rep != [] && forall k :: 0 <= k < |rep| ==> rep[k] !in pat
  }

  /**
   * If the result of a replacement starts with a text made of pattern characters,
   * so did the input: a foreign replacement cannot supply any of them.
   */
  lemma {:induction false} ReplacePrefixComesFromInput(t: string, pat: string, rep: string, q: string)
    requires pat != [] && ForeignTo(rep, pat)
    requires forall k :: 0 <= k < |q| ==> q[k] in pat
    requires StartsWith(Replace(t, pat, rep), q)
    ensures StartsWith(t, q)
    decreases |t|
  {
    if q != [] && |t| >= |pat| {
      var r := Replace(t, pat, rep);
      if t[..|pat|] == pat {
        HeadsAgree(r, q);
        assert false;
      } else {
        var r' := Replace(t[1..], pat, rep);
        assert r == [t[0]] + r';
        assert r'[..|q| - 1] == r[1..|q|] == q[1..];
        ReplacePrefixComesFromInput(t[1..], pat, rep, q[1..]);
        assert t[..|q|] == [t[0]] + t[1..][..|q| - 1];
      }
    }
  }

  /**
   * With a replacement foreign to the pattern (a numeric student id against
   * `<studentID>`), no occurrence of the pattern is left: every one was replaced.
   */
  lemma {:induction false} ReplaceLeavesNoOccurrence(s: string, pat: string, rep: string)
    requires pat != [] && ForeignTo(rep, pat)
    ensures forall i: nat :: !OccursAt(Replace(s, pat, rep), pat, i)
    decreases |s|
  {
    var r := Replace(s, pat, rep);
    if |s| < |pat| {
      assert r == s;
    } else if s[..|pat|] == pat {
      var r' := Replace(s[|pat|..], pat, rep);
      ReplaceLeavesNoOccurrence(s[|pat|..], pat, rep);
      assert r == rep + r';
      forall i: nat ensures !OccursAt(r, pat, i) {
        if i < |rep| {
          if OccursAt(r, pat, i) {
            OccurrenceHead(r, pat, i);
            assert false;
          }
        } else {
          assert r[|rep|..] == r';
          OccursShift(r, pat, |rep|, i - |rep|);
        }
      }
    } else {
      var r' := Replace(s[1..], pat, rep);
      ReplaceLeavesNoOccurrence(s[1..], pat, rep);
      assert r == [s[0]] + r';
      forall i: nat ensures !OccursAt(r, pat, i) {
        if i == 0 {
          if OccursAt(r, pat, 0) {
            assert r'[..|pat| - 1] == pat[1..];
            ReplacePrefixComesFromInput(s[1..], pat, rep, pat[1..]);
            assert false;
          }
        } else {
          assert r[1..] == r';
          OccursShift(r, pat, 1, i - 1);
        }
      }
    }
  }

  // ---------------------------------------------------------------------------
  // Split and join: Rust's `str::split` on a character
  // ---------------------------------------------------------------------------

  /** The pieces between separators; an empty text is one empty piece. */
  function Split(s: string, sep: char): (parts: seq<string>)
    ensures |parts| >= 1
    decreases |s|
  {
    if s == [] then [[]]
    else
      var rest := Split(s[1..], sep);
      if s[0] == sep then [[]] + rest else [[s[0]] + rest[0]] + rest[1..]
  }

  /** No piece contains the separator. */
  lemma {:induction false} SplitPiecesFree(s: string, sep: char)
    ensures forall k :: 0 <= k < |Split(s, sep)| ==> sep !in Split(s, sep)[k]
    decreases |s|
  {
    if s != [] {
      SplitPiecesFree(s[1..], sep);
      var rest := Split(s[1..], sep);
      if s[0] != sep {
        assert sep !in [s[0]] + rest[0];
        assert forall k :: 1 <= k < |Split(s, sep)| ==> Split(s, sep)[k] == rest[k];
      } else {
        assert forall k :: 1 <= k < |Split(s, sep)| ==> Split(s, sep)[k] == rest[k - 1];
      }
    }
  }

  function Join(parts: seq<string>, sep: char): string
    requires |parts| >= 1
  {
    if |parts| == 1 then parts[0] else parts[0] + [sep] + Join(parts[1..], sep)
  }

  /** Joining the pieces back with the separator restores the text. */
  lemma {:induction false} JoinSplit(s: string, sep: char)
    ensures Join(Split(s, sep), sep) == s
    decreases |s|
  {
    if s != [] {
      JoinSplit(s[1..], sep);
      var rest := Split(s[1..], sep);
      if s[0] == sep {
        assert Split(s, sep)[1..] == rest;
      } else {
        var parts := Split(s, sep);
        if |rest| == 1 {
          assert parts == [[s[0]] + rest[0]];
        } else {
          assert parts[1..] == rest[1..];
          assert Join(rest, sep) == rest[0] + [sep] + Join(rest[1..], sep);
        }
      }
      assert s == [s[0]] + s[1..];
    }
  }

  /** Splitting a text that starts with a separator-free piece. */
  lemma {:induction false} SplitAfterPiece(x: string, t: string, sep: char)
    requires sep !in x
    ensures Split(x + t, sep) == [x + Split(t, sep)[0]] + Split(t, sep)[1..]
    decreases |x|
  {
    if x != [] {
      assert (x + t)[1..] == x[1..] + t;
      SplitAfterPiece(x[1..], t, sep);
      var parts, rest := Split(t, sep), Split(x[1..] + t, sep);
      assert rest[0] == x[1..] + parts[0] && rest[1..] == parts[1..];
      assert (x + t)[0] == x[0] && x[0] != sep;
      assert Split(x + t, sep) == [[x[0]] + rest[0]] + rest[1..];
      assert x == [x[0]] + x[1..];
      assert [x[0]] + rest[0] == x + parts[0];
    } else {
      var parts := Split(t, sep);
      assert x + t == t;
      assert x + parts[0] == parts[0];
      assert parts == [parts[0]] + parts[1..];
    }
  }

  /** Splitting the join of separator-free pieces gives the pieces back. */
  lemma {:induction false} SplitJoin(parts: seq<string>, sep: char)
    requires |parts| >= 1
    requires forall k :: 0 <= k < |parts| ==> sep !in parts[k]
    ensures Split(Join(parts, sep), sep) == parts
    decreases |parts|
  {
    if |parts| == 1 {
      SplitAfterPiece(parts[0], [], sep);
      assert parts[0] + [] == parts[0];
      assert Split([], sep) == [[]];
      assert Split(parts[0], sep) == [parts[0]] + [];
      assert parts == [parts[0]];
    } else {
      var tail := Join(parts[1..], sep);
      SplitJoin(parts[1..], sep);
      assert Split([sep] + tail, sep) == [[]] + Split(tail, sep) by {
        assert ([sep] + tail)[1..] == tail;
      }
      assert Join(parts, sep) == parts[0] + ([sep] + tail);
      SplitAfterPiece(parts[0], [sep] + tail, sep);
      var after := Split([sep] + tail, sep);
      assert after[0] == [] && after[1..] == parts[1..];
      assert parts[0] + after[0] == parts[0];
      assert parts == [parts[0]] + parts[1..];
    }
  }

  // ---------------------------------------------------------------------------
  // Integer parsing: Rust's `str::parse::<i32>`
  // ---------------------------------------------------------------------------

  const I32Min: int := -0x8000_0000
  const I32Max: int := 0x7FFF_FFFF

  predicate InI32(v: int)
  {
    I32Min <= v <= I32Max
  }

  predicate IsDigit(c: char)
  {
    '0' <= c <= '9'
  }

  predicate AllDigits(ds: string)
  {
    forall k :: 0 <= k < |ds| ==> IsDigit(ds[k])
  }

  function DigitValue(c: char): nat
    requires IsDigit(c)
  {
    c as int - '0' as int
  }

  /** The decimal value of a digit string, most significant digit first. */
  function DigitsValue(ds: string): nat
    requires AllDigits(ds)
  {
    if ds == [] then 0 else DigitsValue(ds[..|ds| - 1]) * 10 + DigitValue(ds[|ds| - 1])
  }

  /**
   * An optional `+` or `-`, then at least one ASCII digit, and a value within
   * the 32-bit signed range; anything else is a parse error (None).
   */
  function ParseI32(s: string): (r: Option<int>)
    ensures r.Some? ==> InI32(r.value)
    ensures r.Some? ==> exists k :: 0 <= k < |s| && IsDigit(s[k])
  {
    var signed := s != [] && (s[0] == '-' || s[0] == '+');
    var digits := if signed then s[1..] else s;
    if digits == [] || !AllDigits(digits) then None
    else
      var magnitude: int := DigitsValue(digits);
      var v: int := if s[0] == '-' then -magnitude else magnitude;
      assert IsDigit(s[|s| - 1]);
      if InI32(v) then Some(v) else None
  }

  /** The decimal digits of a natural number, as `to_string` writes them. */
  function DecimalDigits(n: nat): (ds: string)
    ensures ds != [] && AllDigits(ds)
  {
    var d := [(n % 10 + '0' as int) as char];
    if n < 10 then d else DecimalDigits(n / 10) + d
  }

  lemma {:induction false} DigitsValueOfDecimal(n: nat)
    ensures DigitsValue(DecimalDigits(n)) == n
  {
    var ds := DecimalDigits(n);
    if n >= 10 {
      DigitsValueOfDecimal(n / 10);
      assert ds[..|ds| - 1] == DecimalDigits(n / 10);
    }
  }

  /** An unsigned digit string within range parses to its value. */
  lemma ParseDigits(ds: string)
    requires ds != [] && AllDigits(ds) && DigitsValue(ds) <= I32Max
    ensures ParseI32(ds) == Some(DigitsValue(ds))
  {
    assert IsDigit(ds[0]);
  }

  /** Parsing the decimal digits of an in-range natural number gives it back. */
  lemma ParseDecimal(n: nat)
    requires n <= I32Max
    ensures ParseI32(DecimalDigits(n)) == Some(n)
  {
    DigitsValueOfDecimal(n);
  }

  // ---------------------------------------------------------------------------
  // Lower-casing and trimming
  // ---------------------------------------------------------------------------

  /** The capital letters of ASCII and of Latin-1 (without the multiplication sign). */
  predicate IsCapital(c: char)
  {
    ('A' <= c <= 'Z') || ('\U{C0}' <= c <= '\U{DE}' && c != '\U{D7}')
  }

  function LowerChar(c: char): (l: char)
    ensures !IsCapital(l)
    ensures !IsCapital(c) ==> l == c
  {
    if IsCapital(c) then (c as int + 32) as char else c
  }

  function ToLower(s: string): (r: string)
    ensures |r| == |s|
    ensures forall k :: 0 <= k < |s| ==> r[k] == LowerChar(s[k])
  {
    if s == [] then [] else [LowerChar(s[0])] + ToLower(s[1..])
  }

  /** Lower-casing twice is lower-casing once. */
  lemma ToLowerIdempotent(s: string)
    ensures ToLower(ToLower(s)) == ToLower(s)
  {
  }

  /** Rust's `char::is_whitespace`: the Unicode White_Space property. */
  predicate IsWhitespace(c: char)
  {
    ('\t' <= c <= '\r') || c == ' ' || c == '\U{85}' || c == '\U{A0}' || c == '\U{1680}'
    || ('\U{2000}' <= c <= '\U{200A}') || c == '\U{2028}' || c == '\U{2029}'
    || c == '\U{202F}' || c == '\U{205F}' || c == '\U{3000}'
  }

  predicate AllWhitespace(s: string)
  {
    forall k :: 0 <= k < |s| ==> IsWhitespace(s[k])
  }

  /** Drops the leading whitespace. */
  function TrimStart(s: string): (r: string)
    ensures |r| <= |s|
  {
    if s != [] && IsWhitespace(s[0]) then TrimStart(s[1..]) else s
  }

  /** What `TrimStart` drops is whitespace, and what it keeps is a suffix that does not start with it. */
  lemma {:induction false} TrimStartShape(s: string)
    ensures var r := TrimStart(s);
      && r == s[|s| - |r|..]
      && AllWhitespace(s[..|s| - |r|])
      && (r != [] ==> !IsWhitespace(r[0]))
  {
    if s != [] && IsWhitespace(s[0]) {
      TrimStartShape(s[1..]);
      var r := TrimStart(s);
      assert s[..|s| - |r|] == [s[0]] + s[1..][..|s[1..]| - |r|];
    }
  }

  /** Drops the trailing whitespace. */
  function TrimEnd(s: string): (r: string)
    ensures |r| <= |s|
  {
    if s != [] && IsWhitespace(s[|s| - 1]) then TrimEnd(s[..|s| - 1]) else s
  }

  /** What `TrimEnd` drops is whitespace, and what it keeps is a prefix that does not end with it. */
  lemma {:induction false} TrimEndShape(s: string)
    ensures var r := TrimEnd(s);
      && r == s[..|r|]
      && AllWhitespace(s[|r|..])
      && (r != [] ==> !IsWhitespace(r[|r| - 1]))
  {
    if s != [] && IsWhitespace(s[|s| - 1]) {
      TrimEndShape(s[..|s| - 1]);
      var r := TrimEnd(s);
      assert s[|r|..] == s[..|s| - 1][|r|..] + [s[|s| - 1]];
    }
  }

  function Trim(s: string): string
  {
    TrimEnd(TrimStart(s))
  }

  lemma {:induction false} TrimStartAfterWhitespace(w: string, s: string)
    requires AllWhitespace(w)
    ensures TrimStart(w + s) == TrimStart(s)
    decreases |w|
  {
    if w != [] {
      assert (w + s)[1..] == w[1..] + s;
      TrimStartAfterWhitespace(w[1..], s);
    } else {
      assert w + s == s;
    }
  }

  lemma {:induction false} TrimEndBeforeWhitespace(s: string, w: string)
    requires AllWhitespace(w)
    ensures TrimEnd(s + w) == TrimEnd(s)
    decreases |w|
  {
    if w != [] {
      assert (s + w)[..|s + w| - 1] == s + w[..|w| - 1];
      TrimEndBeforeWhitespace(s, w[..|w| - 1]);
    } else {
      assert s + w == s;
    }
  }

  lemma {:induction false} TrimStartThenWhitespace(s: string, w: string)
    requires AllWhitespace(w)
    ensures TrimStart(s + w) == if TrimStart(s) == [] then [] else TrimStart(s) + w
    decreases |s|
  {
    if s == [] {
      assert s + w == w + [];
      TrimStartAfterWhitespace(w, []);
    } else if IsWhitespace(s[0]) {
      assert (s + w)[1..] == s[1..] + w;
      TrimStartThenWhitespace(s[1..], w);
    }
  }

  /** Whitespace around a text does not change what trimming it gives. */
  lemma TrimIgnoresPadding(w1: string, s: string, w2: string)
    requires AllWhitespace(w1) && AllWhitespace(w2)
    ensures Trim(w1 + s + w2) == Trim(s)
  {
    assert w1 + s + w2 == w1 + (s + w2);
    TrimStartAfterWhitespace(w1, s + w2);
    TrimStartThenWhitespace(s, w2);
    if TrimStart(s) != [] {
      TrimEndBeforeWhitespace(TrimStart(s), w2);
    }
  }

  /** The comparison form of a name: lower-cased, then trimmed. */
  function Normalize(s: string): string
  {
    Trim(ToLower(s))
  }

  /** The comparison form ignores letter case ... */
  lemma NormalizeIgnoresCase(s: string)
    ensures Normalize(ToLower(s)) == Normalize(s)
  {
    ToLowerIdempotent(s);
  }

  /** ... and surrounding whitespace. */
  lemma NormalizeIgnoresPadding(w1: string, s: string, w2: string)
    requires AllWhitespace(w1) && AllWhitespace(w2)
    ensures Normalize(w1 + s + w2) == Normalize(s)
  {
    var l1, ls, l2 := ToLower(w1), ToLower(s), ToLower(w2);
    assert ToLower(w1 + s + w2) == l1 + ls + l2;
    assert l1 == w1 && l2 == w2;
    TrimIgnoresPadding(l1, ls, l2);
  }
}
