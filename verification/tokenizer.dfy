/**
 The tokenizer of the shell (`lsh_split_line`), stated functionally.

 The C code calls `strtok` repeatedly with the delimiter set " \t\r\n\a".
 Each call skips delimiters, takes the longest run of non-delimiters that
 follows, overwrites the delimiter after it with NUL and resumes just past
 that delimiter on the next call. Here the input is a `seq<char>` and each
 call is described by absolute positions into it (`Span`), so tokens are
 independent copies rather than pointers into the mutated line.
 */
module Tokenizer {
  import opened Wrappers
  import opened CStrings

  /** The bell character, `\a` in C. */
  const BEL: char := '\U{7}'

  /** LSH_TOK_DELIM, the delimiter string passed to every `strtok` call. */
  const LshTokDelim: seq<char> := " \t\r\n\U{7}"

  /** Membership in LSH_TOK_DELIM: space, tab, carriage return, newline, bell. */
  predicate IsDelim(c: char) {
    c == ' ' || c == '\t' || c == '\r' || c == '\n' || c == BEL
  }

  /** `IsDelim` is exactly membership in the LSH_TOK_DELIM string, and NUL is
      never a delimiter: `strtok` reads it as the end of the string. */
  lemma DelimsAreLshTokDelim(c: char)
    ensures IsDelim(c) <==> c in LshTokDelim
    ensures IsDelim(c) ==> c != NUL
  {
  }

  /** Every character of `s` from position `i` on is a delimiter. */
  predicate AllDelims(s: seq<char>, i: nat)
    requires i <= |s|
  {
    forall k :: i <= k < |s| ==> IsDelim(s[k])
  }

  /** A token as the tokenizer hands it out: non-empty, with no delimiter and no NUL in it. */
  predicate ValidToken(t: seq<char>) {
    |t| > 0 && forall k :: 0 <= k < |t| ==> !IsDelim(t[k]) && t[k] != NUL
  }

  predicate ValidTokens(ts: seq<seq<char>>) {
    forall k :: 0 <= k < |ts| ==> ValidToken(ts[k])
  }

  /** The half-open position range `[lo, hi)` of one token in the line. */
  datatype Span = Span(lo: nat, hi: nat)

  /** `sp` is a maximal run of non-delimiters of `s[from..]`: it cannot be
      extended to the left within `s[from..]`, nor to the right. */
  predicate IsMaximalRun(s: seq<char>, from: nat, sp: Span) {
    && from <= sp.lo < sp.hi <= |s|
    && (sp.lo == from || IsDelim(s[sp.lo - 1]))
    && (sp.hi == |s| || IsDelim(s[sp.hi]))
    && forall k :: sp.lo <= k < sp.hi ==> !IsDelim(s[k])
  }

  /** strspn: the first position at or after `i` that holds no delimiter (or |s|). */
  function SkipDelims(s: seq<char>, i: nat): (j: nat)
    requires i <= |s|
    ensures i <= j <= |s|
    ensures forall k :: i <= k < j ==> IsDelim(s[k])
    ensures j < |s| ==> !IsDelim(s[j])
    decreases |s| - i
  {
    if i == |s| || !IsDelim(s[i]) then i else SkipDelims(s, i + 1)
  }

  /** strcspn: the first position at or after `i` that holds a delimiter (or |s|). */
  function RunEnd(s: seq<char>, i: nat): (e: nat)
    requires i <= |s|
    ensures i <= e <= |s|
    ensures forall k :: i <= k < e ==> !IsDelim(s[k])
    ensures e < |s| ==> IsDelim(s[e])
    decreases |s| - i
  {
    if i == |s| || IsDelim(s[i]) then i else RunEnd(s, i + 1)
  }

  /** One `strtok` call that resumes at position `i`: the span of the next
      token, or None (the C NULL) once only delimiters are left. */
  function NextSpan(s: seq<char>, i: nat): (r: Option<Span>)
    requires i <= |s|
    ensures r.None? <==> AllDelims(s, i)
    ensures r.Some? ==> IsMaximalRun(s, i, r.value)
    ensures r.Some? ==> forall k :: i <= k < r.value.lo ==> IsDelim(s[k])
  {
    var lo := SkipDelims(s, i);
    if lo == |s| then None else Some(Span(lo, RunEnd(s, lo)))
  }

  /** Where the next `strtok` call resumes: just past the delimiter that
      ended the token, which the C code overwrote with NUL. */
  function Resume(s: seq<char>, sp: Span): (r: nat)
    requires sp.hi <= |s|
    ensures sp.hi <= r <= |s| && r <= sp.hi + 1
    ensures r == sp.hi <==> sp.hi == |s|
  {
    if sp.hi < |s| then sp.hi + 1 else sp.hi
  }

  /** The spans of all tokens that `strtok` returns when started at `i`. */
  function SpansFrom(s: seq<char>, i: nat): (r: seq<Span>)
    requires i <= |s|
    ensures |r| == 0 <==> AllDelims(s, i)
    ensures forall k :: 0 <= k < |r| ==> IsMaximalRun(s, i, r[k])
    ensures forall j, k :: 0 <= j < k < |r| ==> r[j].hi < r[k].lo
    decreases |s| - i
  {
    match NextSpan(s, i)
    case None => []
    case Some(sp) => [sp] + SpansFrom(s, Resume(s, sp))
  }

  /** The tokens that `strtok` returns when started at `i`, in order. */
  function TokensFrom(s: seq<char>, i: nat): (r: seq<seq<char>>)
    requires i <= |s|
    ensures |r| == 0 <==> AllDelims(s, i)
    decreases |s| - i
  {
    match NextSpan(s, i)
    case None => []
    case Some(sp) => [s[sp.lo..sp.hi]] + TokensFrom(s, Resume(s, sp))
  }

  /** The `strtok` loop stores one token per span: the k-th token is the text of the k-th span. */
  lemma {:induction false} TokensMatchSpans(s: seq<char>, i: nat)
    requires i <= |s|
    ensures |TokensFrom(s, i)| == |SpansFrom(s, i)|
    ensures forall k :: 0 <= k < |TokensFrom(s, i)| ==>
              TokensFrom(s, i)[k] == s[SpansFrom(s, i)[k].lo..SpansFrom(s, i)[k].hi]
    decreases |s| - i
  {
    match NextSpan(s, i)
    case None =>
    case Some(sp) =>
      var next := Resume(s, sp);
      TokensMatchSpans(s, next);
      var ts, sps := TokensFrom(s, i), SpansFrom(s, i);
      assert ts == [s[sp.lo..sp.hi]] + TokensFrom(s, next);
      assert sps == [sp] + SpansFrom(s, next);
      forall k | 0 <= k < |ts|
        ensures ts[k] == s[sps[k].lo..sps[k].hi]
      {
        if k > 0 {
          assert ts[k] == TokensFrom(s, next)[k - 1];
          assert sps[k] == SpansFrom(s, next)[k - 1];
        }
      }
  }

  /** One step of the `strtok` loop: the token at `sp`, then the tokens after it. */
  lemma TokensFromStep(s: seq<char>, i: nat, sp: Span)
    requires i <= |s| && NextSpan(s, i) == Some(sp)
    ensures TokensFrom(s, i) == [s[sp.lo..sp.hi]] + TokensFrom(s, Resume(s, sp))
  {
  }

  /** lsh_split_line: the tokens of `line`, which `strtok` reads up to its first NUL. */
  function Tokenize(line: seq<char>): (r: seq<seq<char>>)
    ensures ValidTokens(r)
    ensures |r| == 0 <==> AllDelims(CString(line), 0)
  {
    var s := CString(line);
    TokensValid(s, 0);
    TokensFrom(s, 0)
  }

  /** The text of a maximal run in a NUL-free line is a valid token. */
  lemma RunIsValidToken(s: seq<char>, from: nat, sp: Span)
    requires NulFree(s) && IsMaximalRun(s, from, sp)
    ensures ValidToken(s[sp.lo..sp.hi])
  {
    var t := s[sp.lo..sp.hi];
    forall m | 0 <= m < |t|
      ensures !IsDelim(t[m]) && t[m] != NUL
    {
      assert t[m] == s[sp.lo + m];
    }
  }

  /** Every token `strtok` returns from a NUL-free line is valid. */
  lemma {:induction false} TokensValid(s: seq<char>, i: nat)
    requires NulFree(s) && i <= |s|
    ensures ValidTokens(TokensFrom(s, i))
    decreases |s| - i
  {
    match NextSpan(s, i)
    case None =>
    case Some(sp) =>
      RunIsValidToken(s, i, sp);
      var next := Resume(s, sp);
      TokensValid(s, next);
      TokensFromStep(s, i, sp);
  }

  // ---------------------------------------------------------------------
  // The tokens are exactly the maximal non-delimiter runs of the line.
  // ---------------------------------------------------------------------

  /** Two maximal runs that share a position are the same run. */
  lemma MaximalRunsOverlapEqual(s: seq<char>, from: nat, a: Span, b: Span, p: nat)
    requires IsMaximalRun(s, from, a) && IsMaximalRun(s, from, b)
    requires a.lo <= p < a.hi && b.lo <= p < b.hi
    ensures a == b
  {
  }

  /** Every non-delimiter at or after `i` lies inside one of the spans `strtok` returns. */
  lemma {:induction false} SpansCover(s: seq<char>, i: nat, p: nat)
    requires i <= p < |s| && !IsDelim(s[p])
    ensures exists k :: 0 <= k < |SpansFrom(s, i)| && SpansFrom(s, i)[k].lo <= p < SpansFrom(s, i)[k].hi
    decreases |s| - i
  {
    assert !AllDelims(s, i);
    var sp := NextSpan(s, i).value;
    var rest := SpansFrom(s, Resume(s, sp));
    assert SpansFrom(s, i) == [sp] + rest;
    if p < sp.hi {
      assert SpansFrom(s, i)[0] == sp;
    } else {
      assert p != sp.hi;
      SpansCover(s, Resume(s, sp), p);
      var k :| 0 <= k < |rest| && rest[k].lo <= p < rest[k].hi;
      assert SpansFrom(s, i)[k + 1] == rest[k];
    }
  }

  /** Every maximal non-delimiter run of the line is one of its tokens, at
      the position given by the run's rank among the spans. Together with the
      postconditions of `SpansFrom` (each span is a maximal run; the spans are
      strictly increasing) this says the tokens are exactly the maximal runs,
      left to right. */
  lemma TokensAreMaximalRuns(line: seq<char>, run: Span)
    requires IsMaximalRun(CString(line), 0, run)
    ensures exists k :: 0 <= k < |SpansFrom(CString(line), 0)|
                     && SpansFrom(CString(line), 0)[k] == run
                     && k < |Tokenize(line)|
                     && Tokenize(line)[k] == CString(line)[run.lo..run.hi]
  {
    var s := CString(line);
    TokensMatchSpans(s, 0);
    SpansCover(s, 0, run.lo);
    var k :| 0 <= k < |SpansFrom(s, 0)| && SpansFrom(s, 0)[k].lo <= run.lo < SpansFrom(s, 0)[k].hi;
    MaximalRunsOverlapEqual(s, 0, SpansFrom(s, 0)[k], run, run.lo);
  }

  // ---------------------------------------------------------------------
  // Joining with single spaces: round trip and normal form.
  // ---------------------------------------------------------------------

  /** The tokens written back out, separated by single spaces. */
  function Join(ts: seq<seq<char>>): seq<char> {
    if |ts| == 0 then []
    else ts[0] + (if |ts| == 1 then [] else [' '] + Join(ts[1..]))
  }

  /** Joining a first token with the rest: the token, then a space and the
      join of the rest unless the rest is empty. */
  lemma JoinCons(t: seq<char>, rest: seq<seq<char>>)
    ensures Join([t] + rest) == t + (if |rest| == 0 then [] else [' '] + Join(rest))
  {
    var ts := [t] + rest;
    assert ts[0] == t && ts[1..] == rest;
  }

  lemma {:induction false} JoinNulFree(ts: seq<seq<char>>)
    requires ValidTokens(ts)
    ensures NulFree(Join(ts))
    decreases |ts|
  {
    if |ts| > 1 {
      JoinNulFree(ts[1..]);
      var j := Join(ts);
      assert j == ts[0] + ([' '] + Join(ts[1..]));
      forall k | 0 <= k < |j|
        ensures j[k] != NUL
      {
        if k >= |ts[0]| + 1 {
          assert j[k] == Join(ts[1..])[k - |ts[0]| - 1];
        }
      }
    }
  }

  /** A run of non-delimiters at `i` that ends at a delimiter or at the end
      of the line is the span the next `strtok` call returns. */
  lemma NextSpanAtRun(s: seq<char>, i: nat, e: nat)
    requires i < e <= |s|
    requires forall k :: i <= k < e ==> !IsDelim(s[k])
    requires e == |s| || IsDelim(s[e])
    ensures NextSpan(s, i) == Some(Span(i, e))
  {
    assert SkipDelims(s, i) == i;
  }

  /** Reading `t + u` at position `i` of `s`, character by character. */
  lemma SuffixParts(s: seq<char>, i: nat, t: seq<char>, u: seq<char>)
    requires i <= |s| && s[i..] == t + u
    ensures i + |t| <= |s|
    ensures s[i..i + |t|] == t && s[i + |t|..] == u
  {
    assert s[i..i + |t|] == s[i..][..|t|];
    assert s[i + |t|..] == s[i..][|t|..];
  }

  /** A valid token copied into the line at `i` puts no delimiter there. */
  lemma TokenInLine(s: seq<char>, i: nat, t: seq<char>)
    requires i + |t| <= |s| && s[i..i + |t|] == t && ValidToken(t)
    ensures forall k :: i <= k < i + |t| ==> !IsDelim(s[k])
  {
    forall k | i <= k < i + |t|
      ensures !IsDelim(s[k])
    {
      assert s[k] == t[k - i];
    }
  }

  /** Where a line spells out the valid token `t` followed by nothing or by a
      space and more text `u`, `t` is the next token and `u` goes on just after
      that space. */
  lemma JoinedSuffix(s: seq<char>, i: nat, t: seq<char>, u: seq<char>)
    requires i <= |s| && ValidToken(t) && s[i..] == t + u
    requires |u| > 0 ==> u[0] == ' '
    ensures NextSpan(s, i) == Some(Span(i, i + |t|))
    ensures s[i..i + |t|] == t
    ensures |u| == 0 ==> i + |t| == |s|
    ensures |u| > 0 ==> i + |t| < |s| && s[i + |t| + 1..] == u[1..]
  {
    SuffixParts(s, i, t, u);
    TokenInLine(s, i, t);
    var e := i + |t|;
    if |u| > 0 {
      SpaceThen(s, e, u);
    }
    NextSpanAtRun(s, i, e);
  }

  /** Reading a space followed by more text at position `j` of `s`. */
  lemma SpaceThen(s: seq<char>, j: nat, u: seq<char>)
    requires j <= |s| && s[j..] == u && |u| > 0 && u[0] == ' '
    ensures j < |s| && IsDelim(s[j]) && s[j + 1..] == u[1..]
  {
    assert s[j] == s[j..][0];
    assert s[j + 1..] == s[j..][1..];
  }

  /** When the next `strtok` call returns the run `t` at `i`, the tokens from
      `i` are `t` and then those after the delimiter that ends it. */
  lemma TokensAtRun(s: seq<char>, i: nat, t: seq<char>) returns (next: nat)
    requires i + |t| <= |s| && NextSpan(s, i) == Some(Span(i, i + |t|)) && s[i..i + |t|] == t
    ensures next <= |s| && TokensFrom(s, i) == [t] + TokensFrom(s, next)
    ensures next == if i + |t| < |s| then i + |t| + 1 else |s|
  {
    var sp := Span(i, i + |t|);
    TokensFromStep(s, i, sp);
    next := Resume(s, sp);
    assert s[sp.lo..sp.hi] == t;
  }

  /** The first `strtok` call on a suffix that spells `t`, then a space and more
      (or nothing), returns `t` and resumes after that space. */
  lemma JoinedStep(s: seq<char>, i: nat, t: seq<char>, rest: seq<seq<char>>) returns (n: nat)
    requires i <= |s| && ValidToken(t)
    requires s[i..] == t + (if |rest| == 0 then [] else [' '] + Join(rest))
    ensures |rest| == 0 ==> TokensFrom(s, i) == [t]
    ensures |rest| > 0 ==> n <= |s| && s[n..] == Join(rest) && TokensFrom(s, i) == [t] + TokensFrom(s, n)
  {
    var u := if |rest| == 0 then [] else [' '] + Join(rest);
    JoinedSuffix(s, i, t, u);
    if |rest| > 0 {
      assert u[1..] == Join(rest);
    }
    n := TokensAtRun(s, i, t);
    if |rest| == 0 {
      assert AllDelims(s, n);
      assert TokensFrom(s, n) == [];
      assert [t] + TokensFrom(s, n) == [t];
    }
  }

  /** The first `strtok` call on a suffix that spells out a non-empty join
      returns its first token, and the rest of the suffix, from `n` on, spells
      the rest of the join. */
  lemma JoinHead(s: seq<char>, i: nat, ts: seq<seq<char>>) returns (n: nat)
    requires i <= |s| && s[i..] == Join(ts) && ValidTokens(ts) && |ts| > 0
    ensures |ts| == 1 ==> TokensFrom(s, i) == ts
    ensures |ts| > 1 ==> && n <= |s|
                         && s[n..] == Join(ts[1..])
                         && ValidTokens(ts[1..])
                         && TokensFrom(s, i) == [ts[0]] + TokensFrom(s, n)
  {
    var t, rest := ts[0], ts[1..];
    assert ts == [t] + rest;
    JoinCons(t, rest);
    n := JoinedStep(s, i, t, rest);
    if |rest| == 0 {
      assert ts == [t];
    }
  }

  /** Tokenizing the suffix `s[i..]` of a line that spells out `ts` joined by
      single spaces gives back `ts`. */
  lemma {:induction false} TokensFromJoin(s: seq<char>, i: nat, ts: seq<seq<char>>)
    requires i <= |s| && s[i..] == Join(ts) && ValidTokens(ts)
    ensures TokensFrom(s, i) == ts
    decreases |ts|
  {
    if |ts| == 0 {
      assert AllDelims(s, i);
      assert TokensFrom(s, i) == [];
    } else {
      var n := JoinHead(s, i, ts);
      if |ts| > 1 {
        var rest := ts[1..];
        TokensFromJoin(s, n, rest);
        assert ts == [ts[0]] + rest;
      }
    }
  }

  lemma TokenizeJoin(ts: seq<seq<char>>)
    requires ValidTokens(ts)
    ensures Tokenize(Join(ts)) == ts
  {
    JoinNulFree(ts);
    TokensFromJoin(Join(ts), 0, ts);
  }

  /** The line with every run of delimiters narrowed to one space and both
      ends trimmed, computed one character at a time, independently of
      `strtok`: `started` says a visible character has been written, `owed`
      that a separating space is due before the next one. */
  function Squeeze(s: seq<char>, i: nat, started: bool, owed: bool): seq<char>
    requires i <= |s|
    decreases |s| - i
  {
    if i == |s| then []
    else if IsDelim(s[i]) then Squeeze(s, i + 1, started, started)
    else (if owed then [' '] else []) + [s[i]] + Squeeze(s, i + 1, true, false)
  }

  /** The normal form of a line: its C string with delimiter runs collapsed and the ends trimmed. */
  function Normalize(line: seq<char>): seq<char> {
    Squeeze(CString(line), 0, false, false)
  }

  /** Overwriting the delimiter that ends a token with NUL and resuming just
      past it loses nothing: the tokens from the resume point are the tokens
      a scan starting at that delimiter would find. */
  lemma ResumeAfterDelimiter(s: seq<char>, from: nat, sp: Span)
    requires IsMaximalRun(s, from, sp)
    ensures forall k :: sp.hi <= k < Resume(s, sp) ==> IsDelim(s[k])
    ensures TokensFrom(s, Resume(s, sp)) == TokensFrom(s, sp.hi)
  {
    var r := ResumeTokens(s, sp.hi);
    assert r == Resume(s, sp);
  }

  /** Resuming one past a delimiter at `e` (or at the end) finds the tokens from `e`. */
  lemma ResumeTokens(s: seq<char>, e: nat) returns (r: nat)
    requires e <= |s| && (e == |s| || IsDelim(s[e]))
    ensures r == (if e < |s| then e + 1 else e)
    ensures TokensFrom(s, r) == TokensFrom(s, e)
  {
    r := if e < |s| then e + 1 else e;
    if e < |s| {
      DelimSkipped(s, e);
    }
  }

  /** A delimiter at `i` is skipped: the tokens from `i` are the tokens from `i + 1`. */
  lemma DelimSkipped(s: seq<char>, i: nat)
    requires i < |s| && IsDelim(s[i])
    ensures TokensFrom(s, i) == TokensFrom(s, i + 1)
  {
    assert NextSpan(s, i) == NextSpan(s, i + 1);
  }

  /** The squeezed text from `i` in state (`started`, `owed`) is the tokens
      from `i` joined by single spaces, preceded by a space exactly when one
      is owed or a token ended right before a delimiter at `i`. */
  lemma {:induction false} SqueezeTokens(s: seq<char>, i: nat, started: bool, owed: bool)
    requires i <= |s|
    requires owed ==> started
    ensures var ts := TokensFrom(s, i);
            Squeeze(s, i, started, owed)
              == if |ts| == 0 then []
                 else (if owed || (started && i < |s| && IsDelim(s[i])) then [' '] else []) + Join(ts)
    decreases |s| - i, 2
  {
    if i == |s| {
      assert AllDelims(s, i);
    } else if IsDelim(s[i]) {
      SqueezeTokens(s, i + 1, started, started);
      DelimSkipped(s, i);
    } else {
      SqueezeRun(s, i);
      assert !AllDelims(s, i);
    }
  }

  /** Starting on a non-delimiter, the squeezed text is the joined tokens. */
  lemma {:induction false} SqueezeRun(s: seq<char>, i: nat)
    requires i < |s| && !IsDelim(s[i])
    ensures [s[i]] + Squeeze(s, i + 1, true, false) == Join(TokensFrom(s, i))
    decreases |s| - i, 1
  {
    var e := RunEnd(s, i);
    assert NextSpan(s, i) == Some(Span(i, e));
    if i + 1 < e {
      SqueezeRunInside(s, i, e);
    } else {
      SqueezeRunLast(s, i);
    }
  }

  /** Joining the tokens from `i`, where the next token spans `[i, e)`: that
      token's text, then the join of the tokens from `next` behind a space. */
  lemma JoinAtSpan(s: seq<char>, i: nat, e: nat) returns (next: nat)
    requires i < e <= |s| && NextSpan(s, i) == Some(Span(i, e))
    ensures next == Resume(s, Span(i, e)) && next <= |s|
    ensures var rest := TokensFrom(s, next);
            Join(TokensFrom(s, i)) == s[i..e] + (if |rest| == 0 then [] else [' '] + Join(rest))
  {
    var t := s[i..e];
    next := TokensAtRun(s, i, t);
    JoinCons(t, TokensFrom(s, next));
  }

  /** The step of `SqueezeRun` when the token goes on after position `i`. */
  lemma {:induction false} SqueezeRunInside(s: seq<char>, i: nat, e: nat)
    requires i + 1 < e && i < |s| && NextSpan(s, i) == Some(Span(i, e))
    ensures [s[i]] + Squeeze(s, i + 1, true, false) == Join(TokensFrom(s, i))
    decreases |s| - i, 0
  {
    var next := JoinAtSpan(s, i, e);
    assert NextSpan(s, i + 1) == Some(Span(i + 1, e));
    var next' := JoinAtSpan(s, i + 1, e);
    assert next' == next;
    var rest := TokensFrom(s, next);
    var tail := if |rest| == 0 then [] else [' '] + Join(rest);
    SqueezeRun(s, i + 1);
    assert Squeeze(s, i + 1, true, false) == [s[i + 1]] + Squeeze(s, i + 2, true, false);
    assert Squeeze(s, i + 1, true, false) == s[i + 1..e] + tail;
    SliceCons(s, i, e, tail);
  }

  /** A slice is its first character followed by the rest of it. */
  lemma SliceCons(s: seq<char>, i: nat, e: nat, tail: seq<char>)
    requires i < e <= |s|
    ensures [s[i]] + (s[i + 1..e] + tail) == s[i..e] + tail
  {
    assert s[i..e] == [s[i]] + s[i + 1..e];
  }

  /** The step of `SqueezeRun` when the token ends right after position `i`. */
  lemma {:induction false} SqueezeRunLast(s: seq<char>, i: nat)
    requires i < |s| && NextSpan(s, i) == Some(Span(i, i + 1))
    ensures [s[i]] + Squeeze(s, i + 1, true, false) == Join(TokensFrom(s, i))
    decreases |s| - i, 0
  {
    var e := i + 1;
    var sp := Span(i, e);
    var rest := TokensFrom(s, Resume(s, sp));
    var tail := if |rest| == 0 then [] else [' '] + Join(rest);
    assert Join(TokensFrom(s, i)) == s[i..e] + tail by {
      TokensFromStep(s, i, sp);
      JoinCons(s[i..e], rest);
    }
    if e == |s| {
      assert AllDelims(s, Resume(s, sp));
    } else {
      SqueezeTokens(s, e, true, false);
      DelimSkipped(s, e);
    }
    assert s[i..e] == [s[i]];
  }

  /** Joining the tokens of a line with single spaces gives the line with its
      delimiter runs collapsed and its ends trimmed. */
  lemma JoinTokenize(line: seq<char>)
    ensures Join(Tokenize(line)) == Normalize(line)
  {
    SqueezeTokens(CString(line), 0, false, false);
  }
}
