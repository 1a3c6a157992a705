/**
 * The parts of Python's `str` that the dashboard's parsing relies on:
 * `s.split(sep)` with a one-character separator, `s.split()` with no
 * argument (runs of whitespace separate tokens, empty tokens are dropped)
 * and `s.strip()` with no argument. `Join` (`sep.join(parts)`) and `Layout`
 * (words between whitespace gaps) are not called by the dashboard; they are
 * the inverses the splitting functions are proved against.
 */
module Text {

  /** Python's whitespace for `split()` and `strip()` without arguments
      (the characters for which CPython's `Py_UNICODE_ISSPACE` holds). */
  predicate IsSpace(c: char) {
    c == ' ' || ('\t' <= c <= '\r') || ('\U{1c}' <= c <= '\U{1f}')
    || c == '\U{85}' || c == '\U{a0}' || c == '\U{1680}'
    || ('\U{2000}' <= c <= '\U{200a}') || c == '\U{2028}' || c == '\U{2029}'
    || c == '\U{202f}' || c == '\U{205f}' || c == '\U{3000}'
  }

  predicate NoSpace(s: string) {
    forall i :: 0 <= i < |s| ==> !IsSpace(s[i])
  }

  predicate AllSpace(s: string) {
    forall i :: 0 <= i < |s| ==> IsSpace(s[i])
  }

  /** `r` occurs in `s` starting at index `i`. */
  predicate OccursAt(r: string, s: string, i: int) {
    0 <= i <= |s| - |r| && s[i..i + |r|] == r
  }

  /** Neither end of `s` is whitespace: what `strip()` returns. */
  predicate IsStripped(s: string) {
    s == [] || (!IsSpace(s[0]) && !IsSpace(s[|s| - 1]))
  }

  /** `sep.join(parts)`. */
  function Join(parts: seq<string>, sep: char): string {
    if parts == [] then []
    else if |parts| == 1 then parts[0]
    else parts[0] + [sep] + Join(parts[1..], sep)
  }

  /** `s.split(sep)`: always at least one part (`"".split(",") == [""]`),
      and no part holds the separator. */
  function Split(s: string, sep: char): (parts: seq<string>)
    ensures |parts| >= 1
    decreases |s|
  {
    if s == [] then [[]]
    else
      var rest := Split(s[1..], sep);
      if s[0] == sep then [[]] + rest
      else [[s[0]] + rest[0]] + rest[1..]
  }

  /** No part of a split holds the separator. */
  lemma {:induction false} SplitPartsOmitSep(s: string, sep: char)
    ensures forall i :: 0 <= i < |Split(s, sep)| ==> sep !in Split(s, sep)[i]
    decreases |s|
  {
    if s != [] {
      SplitPartsOmitSep(s[1..], sep);
      var rest := Split(s[1..], sep);
      if s[0] != sep {
        assert sep !in [s[0]] + rest[0];
      }
    }
  }

  /** A string without the separator splits into itself alone, and a string
      with it into more than one part. */
  lemma {:induction false} SplitWithoutSep(s: string, sep: char)
    ensures sep !in s <==> |Split(s, sep)| == 1
    ensures sep !in s ==> Split(s, sep) == [s]
    decreases |s|
  {
    if s != [] {
      SplitWithoutSep(s[1..], sep);
      assert s == [s[0]] + s[1..];
    }
  }

  /** One step of `JoinSplit`: if `s[1..]` round-trips, so does `s`. */
  lemma JoinSplitStep(s: string, sep: char)
    requires s != [] && Join(Split(s[1..], sep), sep) == s[1..]
    ensures Join(Split(s, sep), sep) == s
  {
  }

  /** Joining the parts of a split gives back the string. */
  lemma {:induction false} JoinSplit(s: string, sep: char)
    ensures Join(Split(s, sep), sep) == s
    decreases |s|
  {
    if s != [] {
      JoinSplit(s[1..], sep);
      JoinSplitStep(s, sep);
    }
  }

  /** Splitting a prefix that holds no separator glues it to the first part. */
  lemma {:induction false} SplitPrefix(p: string, t: string, sep: char)
    requires sep !in p
    ensures Split(p + t, sep) == [p + Split(t, sep)[0]] + Split(t, sep)[1..]
    decreases |p|
  {
    if p != [] {
      assert (p + t)[1..] == p[1..] + t;
      SplitPrefix(p[1..], t, sep);
      assert [p[0]] + (p[1..] + Split(t, sep)[0]) == p + Split(t, sep)[0];
    } else {
      var parts := Split(t, sep);
      assert p + t == t && p + parts[0] == parts[0];
      assert [parts[0]] + parts[1..] == parts;
    }
  }

  /** Splitting what was joined from separator-free parts gives back the parts. */
  lemma {:induction false} SplitJoin(parts: seq<string>, sep: char)
    requires |parts| >= 1
    requires forall i :: 0 <= i < |parts| ==> sep !in parts[i]
    ensures Split(Join(parts, sep), sep) == parts
    decreases |parts|
  {
    if |parts| == 1 {
      SplitWithoutSep(parts[0], sep);
    } else {
      var tail := Join(parts[1..], sep);
      SplitJoin(parts[1..], sep);
      assert Join(parts, sep) == parts[0] + ([sep] + tail);
      SplitPrefix(parts[0], [sep] + tail, sep);
      assert ([sep] + tail)[1..] == tail;
      assert Split([sep] + tail, sep) == [[]] + parts[1..];
      assert parts[0] + [] == parts[0];
      assert [parts[0]] + parts[1..] == parts;
    }
  }

  /** `r` is the end of `s`, and either all of it or preceded by `sep`. */
  predicate SuffixAfter(r: string, s: string, sep: char) {
    |r| <= |s| && r == s[|s| - |r|..] && (|r| < |s| ==> s[|s| - |r| - 1] == sep)
  }

  /** `s.split(sep)[-1]`: the text after the last separator. */
  function LastSplit(s: string, sep: char): (r: string)
    ensures sep !in r
    ensures SuffixAfter(r, s, sep)
  {
    var parts := Split(s, sep);
    LastSplitIsSuffix(s, sep);
    SplitPartsOmitSep(s, sep);
    parts[|parts| - 1]
  }

  /** A suffix of `s[1..]` is a suffix of `s`, preceded by `sep` unless it
      is all of `s`. */
  lemma SuffixAfterCons(r: string, s: string, sep: char)
    requires s != [] && SuffixAfter(r, s[1..], sep)
    requires |r| == |s| - 1 ==> s[0] == sep
    ensures SuffixAfter(r, s, sep)
  {
  }

  /** A suffix without the separator of a string with it is shorter than
      the string. */
  lemma ProperSuffix(r: string, s: string, sep: char)
    requires SuffixAfter(r, s, sep) && sep in s && sep !in r
    ensures |r| < |s|
  {
  }

  /** The last part of a split of `s` from that of `s[1..]`. */
  lemma LastSplitStep(s: string, sep: char)
    requires s != []
    requires var rest := Split(s[1..], sep); SuffixAfter(rest[|rest| - 1], s[1..], sep)
    ensures var parts := Split(s, sep); SuffixAfter(parts[|parts| - 1], s, sep)
  {
    var rest := Split(s[1..], sep);
    if s[0] == sep || |rest| > 1 {
      LastSplitOfLater(s, sep);
    } else {
      SplitWithoutSep(s[1..], sep);
      assert [s[0]] + s[1..] == s;
      assert Split(s, sep) == [[s[0]] + s[1..]];
    }
  }

  /** When `s` starts with the separator or `s[1..]` holds one, the last
      part of `s` is that of `s[1..]`. */
  lemma LastSplitOfLater(s: string, sep: char)
    requires s != []
    requires var rest := Split(s[1..], sep); SuffixAfter(rest[|rest| - 1], s[1..], sep)
    requires s[0] == sep || |Split(s[1..], sep)| > 1
    ensures var parts := Split(s, sep); SuffixAfter(parts[|parts| - 1], s, sep)
  {
    var rest := Split(s[1..], sep);
    var parts := Split(s, sep);
    var last := rest[|rest| - 1];
    assert parts[|parts| - 1] == last;
    if s[0] != sep {
      SplitWithoutSep(s[1..], sep);
      SplitPartsOmitSep(s[1..], sep);
      ProperSuffix(last, s[1..], sep);
    }
    SuffixAfterCons(last, s, sep);
  }

  /** The last part of a split is the text after the last separator. */
  lemma {:induction false} LastSplitIsSuffix(s: string, sep: char)
    ensures var parts := Split(s, sep); SuffixAfter(parts[|parts| - 1], s, sep)
    decreases |s|
  {
    if s != [] {
      LastSplitIsSuffix(s[1..], sep);
      LastSplitStep(s, sep);
    }
  }

  /** The index of the first non-whitespace character at or after `i`
      (`|s|` when there is none). */
  function SkipSpace(s: string, i: nat): (j: nat)
    requires i <= |s|
    ensures i <= j <= |s|
    ensures forall k :: i <= k < j ==> IsSpace(s[k])
    ensures j < |s| ==> !IsSpace(s[j])
    decreases |s| - i
  {
    if i < |s| && IsSpace(s[i]) then SkipSpace(s, i + 1) else i
  }

  /** The end of `s[lo..j]` once its trailing whitespace is dropped. */
  function TrimEnd(s: string, lo: nat, j: nat): (e: nat)
    requires lo <= j <= |s|
    ensures lo <= e <= j
    ensures forall k :: e <= k < j ==> IsSpace(s[k])
    ensures lo < e ==> !IsSpace(s[e - 1])
    decreases j
  {
    if lo < j && IsSpace(s[j - 1]) then TrimEnd(s, lo, j - 1) else j
  }

  /** `r` sits in `s` at index `i` with only whitespace before and after it. */
  predicate StrippedAt(r: string, s: string, i: int) {
    OccursAt(r, s, i)
    && (forall k :: 0 <= k < i ==> IsSpace(s[k]))
    && (forall k :: i + |r| <= k < |s| ==> IsSpace(s[k]))
  }

  /** `s.strip()`: the middle of `s` left when the whitespace at both ends is
      removed, starting at the first non-whitespace character; a string
      already stripped is returned unchanged. */
  function Strip(s: string): (r: string)
    ensures IsStripped(r)
    ensures StrippedAt(r, s, SkipSpace(s, 0))
    ensures IsStripped(s) ==> r == s
  {
    var b := SkipSpace(s, 0);
    s[b..TrimEnd(s, b, |s|)]
  }

  /** The longest prefix of `s` without whitespace. */
  function Word(s: string): (w: string)
    ensures |w| <= |s| && w == s[..|w|] && NoSpace(w)
    ensures |w| < |s| ==> IsSpace(s[|w|])
    decreases |s|
  {
    if s == [] || IsSpace(s[0]) then [] else [s[0]] + Word(s[1..])
  }

  /** `s.split()`: the maximal runs of non-whitespace, in order. A string
      made only of whitespace (or empty) has no tokens. */
  function Tokens(s: string): (ts: seq<string>)
    ensures forall i :: 0 <= i < |ts| ==> ts[i] != [] && NoSpace(ts[i])
    ensures ts == [] <==> AllSpace(s)
    decreases |s|
  {
    if s == [] then []
    else if IsSpace(s[0]) then Tokens(s[1..])
    else
      var w := Word(s);
      [w] + Tokens(s[|w|..])
  }

  lemma {:induction false} WordOfPrefix(w: string, t: string)
    requires NoSpace(w)
    requires t == [] || IsSpace(t[0])
    ensures Word(w + t) == w
    decreases |w|
  {
    if w == [] {
      assert w + t == t;
    } else {
      assert (w + t)[1..] == w[1..] + t;
      WordOfPrefix(w[1..], t);
      assert [w[0]] + w[1..] == w;
    }
  }

  /** A whitespace-free word followed by nothing or by whitespace is the
      first token, and the tokens after it are those of the rest. */
  lemma TokensOfWordThen(w: string, t: string)
    requires w != [] && NoSpace(w)
    requires t == [] || IsSpace(t[0])
    ensures Tokens(w + t) == [w] + Tokens(t)
  {
    WordOfPrefix(w, t);
    assert (w + t)[|w|..] == t;
  }

  /** Whitespace in front of a string does not change its tokens. */
  lemma {:induction false} TokensSkipGap(g: string, t: string)
    requires AllSpace(g)
    ensures Tokens(g + t) == Tokens(t)
    decreases |g|
  {
    if g != [] {
      assert (g + t)[1..] == g[1..] + t;
      TokensSkipGap(g[1..], t);
    } else {
      assert g + t == t;
    }
  }

  /** The tokens that `split()` can return: non-empty and whitespace-free. */
  predicate AreWords(ts: seq<string>) {
    forall i :: 0 <= i < |ts| ==> ts[i] != [] && NoSpace(ts[i])
  }

  /** Words set between gaps: `gaps[0] + ts[0] + gaps[1] + ... + ts[n-1] + gaps[n]`. */
  function Layout(ts: seq<string>, gaps: seq<string>): string
    requires |gaps| == |ts| + 1
    decreases |ts|
  {
    if ts == [] then gaps[0] else gaps[0] + ts[0] + Layout(ts[1..], gaps[1..])
  }

  /** Gaps `split()` separates words by: whitespace only, possibly empty at
      either end, and at least one character between two words. */
  predicate AreGaps(ts: seq<string>, gaps: seq<string>) {
    |gaps| == |ts| + 1
    && (forall i :: 0 <= i < |gaps| ==> AllSpace(gaps[i]))
    && (forall i :: 0 < i < |ts| ==> gaps[i] != [])
  }

  /** Dropping the first word and gap of a layout leaves a layout. */
  lemma LayoutTail(ts: seq<string>, gaps: seq<string>)
    requires ts != [] && AreWords(ts) && AreGaps(ts, gaps)
    ensures AreWords(ts[1..]) && AreGaps(ts[1..], gaps[1..])
  {
  }

  /** A layout that starts with a word starts with a non-whitespace character. */
  lemma LayoutStart(ts: seq<string>, gaps: seq<string>)
    requires ts != [] && AreWords(ts) && AreGaps(ts, gaps)
    ensures Layout(ts, gaps) != []
    ensures gaps[0] == [] ==> !IsSpace(Layout(ts, gaps)[0])
  {
  }

  /** After the first word of a layout comes nothing or whitespace. */
  lemma LayoutAfterWord(ts: seq<string>, gaps: seq<string>)
    requires ts != [] && AreWords(ts) && AreGaps(ts, gaps)
    ensures var rest := Layout(ts[1..], gaps[1..]); rest == [] || IsSpace(rest[0])
  {
  }

  /** One step of `TokensOfLayout`: the first word, then the tokens of the rest. */
  lemma TokensOfLayoutStep(ts: seq<string>, gaps: seq<string>)
    requires ts != [] && AreWords(ts) && AreGaps(ts, gaps)
    ensures Tokens(Layout(ts, gaps)) == [ts[0]] + Tokens(Layout(ts[1..], gaps[1..]))
  {
    var rest := Layout(ts[1..], gaps[1..]);
    assert Layout(ts, gaps) == gaps[0] + (ts[0] + rest);
    TokensSkipGap(gaps[0], ts[0] + rest);
    LayoutAfterWord(ts, gaps);
    TokensOfWordThen(ts[0], rest);
  }

  /** Splitting on whitespace any layout of words gives back the words:
      runs of whitespace count as one separator, and whitespace at either
      end is dropped. */
  lemma {:induction false} TokensOfLayout(ts: seq<string>, gaps: seq<string>)
    requires AreWords(ts) && AreGaps(ts, gaps)
    ensures Tokens(Layout(ts, gaps)) == ts
    decreases |ts|
  {
    if ts != [] {
      LayoutTail(ts, gaps);
      TokensOfLayout(ts[1..], gaps[1..]);
      TokensOfLayoutStep(ts, gaps);
      assert [ts[0]] + ts[1..] == ts;
    }
  }

  /** Putting a whitespace character in front of a layout's first gap. */
  lemma LayoutConsGap(c: char, ts: seq<string>, gaps: seq<string>)
    requires |gaps| == |ts| + 1
    ensures Layout(ts, [[c] + gaps[0]] + gaps[1..]) == [c] + Layout(ts, gaps)
  {
  }

  /** ... and the gaps stay gaps. */
  lemma GapsConsSpace(c: char, ts: seq<string>, gaps: seq<string>)
    requires IsSpace(c) && AreGaps(ts, gaps)
    ensures AreGaps(ts, [[c] + gaps[0]] + gaps[1..])
  {
  }

  /** Putting a word in front of a layout, with an empty gap before it. */
  lemma LayoutConsWord(w: string, ts: seq<string>, gaps: seq<string>)
    requires |gaps| == |ts| + 1
    ensures Layout([w] + ts, [[]] + gaps) == w + Layout(ts, gaps)
  {
  }

  /** ... and the gaps stay gaps when the old first gap is not empty (or
      there is no old word for it to separate the new word from). */
  lemma GapsConsWord(w: string, ts: seq<string>, gaps: seq<string>)
    requires AreGaps(ts, gaps)
    requires ts != [] ==> gaps[0] != []
    ensures AreGaps([w] + ts, [[]] + gaps)
  {
  }

  /** One step of `LayoutOfTokens` for a string that starts with whitespace:
      the whitespace joins the first gap. */
  lemma LayoutOfTokensSpace(s: string, g: seq<string>) returns (gaps: seq<string>)
    requires s != [] && IsSpace(s[0])
    requires AreGaps(Tokens(s[1..]), g) && Layout(Tokens(s[1..]), g) == s[1..]
    ensures AreGaps(Tokens(s), gaps) && Layout(Tokens(s), gaps) == s
  {
    var ts := Tokens(s[1..]);
    assert Tokens(s) == ts;
    gaps := [[s[0]] + g[0]] + g[1..];
    LayoutConsGap(s[0], ts, g);
    GapsConsSpace(s[0], ts, g);
    assert [s[0]] + s[1..] == s;
  }

  /** One step of `LayoutOfTokens` for a string that starts with a word:
      an empty first gap, then the word, then the layout of the rest. */
  lemma LayoutOfTokensWord(s: string, g: seq<string>) returns (gaps: seq<string>)
    requires s != [] && !IsSpace(s[0])
    requires var rest := s[|Word(s)|..]; AreGaps(Tokens(rest), g) && Layout(Tokens(rest), g) == rest
    ensures AreGaps(Tokens(s), gaps) && Layout(Tokens(s), gaps) == s
  {
    var w := Word(s);
    var rest := s[|w|..];
    var ts := Tokens(rest);
    assert Tokens(s) == [w] + ts;
    gaps := [[]] + g;
    LayoutConsWord(w, ts, g);
    assert s == w + rest;
    if ts != [] {
      LayoutStart(ts, g);
      assert IsSpace(rest[0]);
    }
    GapsConsWord(w, ts, g);
  }

  /** Every string is a layout of its tokens: `split()` loses only the
      whitespace between and around them. */
  lemma {:induction false} LayoutOfTokens(s: string) returns (gaps: seq<string>)
    ensures AreGaps(Tokens(s), gaps)
    ensures Layout(Tokens(s), gaps) == s
    decreases |s|
  {
    if s == [] {
      gaps := [[]];
    } else if IsSpace(s[0]) {
      var g := LayoutOfTokens(s[1..]);
      gaps := LayoutOfTokensSpace(s, g);
    } else {
      var g := LayoutOfTokens(s[|Word(s)|..]);
      gaps := LayoutOfTokensWord(s, g);
    }
  }

  /** The first token is the word at the first non-whitespace character. */
  lemma FirstToken(s: string)
    requires !AllSpace(s)
    ensures Tokens(s) != []
    ensures Tokens(s)[0] == Word(s[SkipSpace(s, 0)..])
  {
    var b := SkipSpace(s, 0);
    assert s == s[..b] + s[b..];
    TokensSkipGap(s[..b], s[b..]);
  }
}
