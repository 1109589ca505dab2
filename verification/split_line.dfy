/**
 The tokenizer as the C code runs it: a buffer of token slots that starts with
 LSH_TOK_BUFSIZE slots and grows by that many whenever it fills, with the
 buffer ended by a NULL slot after the last token. The buffer is a value of
 type `seq<Option<seq<char>>>` whose length is the allocated size `bufsize`;
 `None` stands for the NULL pointer (and for slots not yet written).
 */
module SplitLine {
  import opened Wrappers
  import opened CStrings
  import opened Tokenizer

  /** LSH_TOK_BUFSIZE: the initial number of token slots, and the growth step. */
  const TokBufSize: nat := 64

  type Slots = seq<Option<seq<char>>>

  /** realloc to `n` slots: the first `|buf|` slots keep their contents. */
  function Realloc(buf: Slots, n: nat): (r: Slots)
    requires |buf| <= n
    ensures |r| == n
    ensures r[..|buf|] == buf
  {
    buf + seq(n - |buf|, _ => None)
  }

  lemma GrowthKeepsMultiple(n: nat)
    requires n % TokBufSize == 0
    ensures (n + TokBufSize) % TokBufSize == 0
  {
  }

  /** Taking the token at `sp` off the remaining tokens `all[pos..]`. */
  lemma TokensAdvance(s: seq<char>, at: nat, sp: Span, all: seq<seq<char>>, pos: nat)
    requires at <= |s| && NextSpan(s, at) == Some(sp)
    requires pos <= |all| && TokensFrom(s, at) == all[pos..]
    ensures pos < |all| && all[pos] == s[sp.lo..sp.hi]
    ensures all[pos + 1..] == TokensFrom(s, Resume(s, sp))
  {
    TokensFromStep(s, at, sp);
    assert all[pos..][1..] == all[pos + 1..];
  }

  /** One insertion into the token buffer: store `x` at `pos`, then, if the
      buffer is full, grow it by LSH_TOK_BUFSIZE slots. The size stays a
      multiple of LSH_TOK_BUFSIZE, the slot after `x` is inside the buffer,
      and the slots before `pos` are untouched. */
  function Push(tokens: Slots, pos: nat, x: seq<char>): (r: Slots)
    requires pos < |tokens| && |tokens| % TokBufSize == 0
    ensures |r| % TokBufSize == 0 && pos + 1 < |r|
    ensures |r| == if pos + 1 < |tokens| then |tokens| else |tokens| + TokBufSize
    ensures r[pos] == Some(x)
    ensures forall k :: 0 <= k < pos ==> r[k] == tokens[k]
  {
    var stored := tokens[pos := Some(x)];
    if pos + 1 < |tokens| then stored
    else
      GrowthKeepsMultiple(|tokens|);
      var grown := Realloc(stored, |tokens| + TokBufSize);
      assert forall k :: 0 <= k < |stored| ==> grown[k] == grown[..|stored|][k];
      grown
  }

  /** lsh_split_line: fills a token buffer with the tokens of `line` and
      returns it with the number of tokens, `pos`. The buffer size is always a
      positive multiple of LSH_TOK_BUFSIZE, `tokens[pos]` is the NULL
      sentinel, and `tokens[0..pos)` are exactly the tokens of `Tokenize`. */
  method SplitLine(line: seq<char>) returns (tokens: Slots, pos: nat)
    ensures |tokens| > 0 && |tokens| % TokBufSize == 0
    ensures pos < |tokens| && tokens[pos] == None
    ensures pos == |Tokenize(line)|
    ensures forall k :: 0 <= k < pos ==> tokens[k] == Some(Tokenize(line)[k])
  {
    // strtok stops at the NUL that ends the C string
    var s := CString(line);
    tokens := seq(TokBufSize, _ => None);
    pos := 0;
    var at := 0;
    var token := NextSpan(s, at);
    ghost var all := TokensFrom(s, 0);
    while token.Some?
      invariant at <= |s|
      invariant token == NextSpan(s, at)
      invariant 0 < |tokens| && |tokens| % TokBufSize == 0
      invariant pos < |tokens|
      invariant pos <= |all| && TokensFrom(s, at) == all[pos..]
      invariant forall k :: 0 <= k < pos ==> tokens[k] == Some(all[k])
      decreases |s| - at
    {
      var sp := token.value;
      TokensAdvance(s, at, sp, all, pos);
      tokens := Push(tokens, pos, s[sp.lo..sp.hi]);
      pos := pos + 1;
      at := Resume(s, sp);
      token := NextSpan(s, at);
    }
    tokens := tokens[pos := None];
  }
}
