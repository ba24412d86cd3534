/**
 * Continuous sign-language recognition text collapse (src/lib/helpers/CSLR.ts): the stream of
 * per-frame recognised letters is split into tokens ("Ch" is one token), runs of equal tokens
 * are grouped, tolerating a single misrecognised token inside a run, and each long enough group
 * is written out once, followed by a space when it is very long.
 */
module Cslr {
  import opened Wrappers

  const MIN_GROUP_LENGTH: nat := 6
  const SPACE_INSERT_THRESHOLD: nat := 20
  const MULTI_CHAR_TOKENS: seq<string> := ["Ch"]
  /** How many tokens on each side of a mismatch are looked at. */
  const ERROR_CONTEXT_SIZE: nat := 1

  // ---------------------------------------------------------------------------------------------
  // Tokens

  /** The first of `candidates` that `s` starts with (JavaScript's `substring` clamps at the end). */
  function MatchAt(s: string, candidates: seq<string>): (r: Option<string>)
    ensures r.Some? ==> r.value in candidates && |r.value| <= |s| && s[..|r.value|] == r.value
    ensures r.None? ==> forall t :: t in candidates ==> !(|t| <= |s| && s[..|t|] == t)
  {
    if |candidates| == 0 then None
    else if |candidates[0]| <= |s| && s[..|candidates[0]|] == candidates[0] then Some(candidates[0])
    else MatchAt(s, candidates[1..])
  }

  /**
   * The match is the FIRST candidate `s` starts with: it is the candidate at some index `k`, and no
   * candidate before `k` fits.
   */
  lemma {:induction false} MatchAtFirst(s: string, candidates: seq<string>) returns (k: nat)
    ensures var r := MatchAt(s, candidates);
      r.Some? ==>
        && k < |candidates| && candidates[k] == r.value
        && forall j :: 0 <= j < k ==> !(|candidates[j]| <= |s| && s[..|candidates[j]|] == candidates[j])
    decreases |candidates|
  {
    k := 0;
    if |candidates| > 0 && !(|candidates[0]| <= |s| && s[..|candidates[0]|] == candidates[0]) {
      var rest := candidates[1..];
      var k' := MatchAtFirst(s, rest);
      k := k' + 1;
      if MatchAt(s, rest).Some? {
        assert forall j :: 1 <= j < k ==> candidates[j] == rest[j - 1];
      }
    }
  }

  /** Greedy left-to-right tokenisation: a multi-character token where one starts, else one character. */
  function Tokenize(s: string): seq<string>
    decreases |s|
  {
    if |s| == 0 then []
    else match MatchAt(s, MULTI_CHAR_TOKENS)
      case Some(t) => [t] + Tokenize(s[|t|..])
      case None => [[s[0]]] + Tokenize(s[1..])
  }

  function Concat(ts: seq<string>): string
  {
    if |ts| == 0 then "" else ts[0] + Concat(ts[1..])
  }

  lemma {:induction false} ConcatAppend(a: seq<string>, b: seq<string>)
    ensures Concat(a + b) == Concat(a) + Concat(b)
  {
    if |a| > 0 {
      var ab := a + b;
      assert ab[0] == a[0] && ab[1..] == a[1..] + b;
      ConcatAppend(a[1..], b);
      assert Concat(ab) == a[0] + Concat(a[1..] + b);
      AppendAssoc(a[0], Concat(a[1..]), Concat(b));
    } else {
      assert a + b == b;
    }
  }

  lemma ConcatCons(t: string, ts: seq<string>)
    ensures Concat([t] + ts) == t + Concat(ts)
  {
    assert ([t] + ts)[1..] == ts;
  }

  /** Tokenisation loses nothing: the tokens concatenate back to the input. */
  lemma {:induction false} TokenizeRoundTrip(s: string)
    ensures Concat(Tokenize(s)) == s
    decreases |s|
  {
    if |s| > 0 {
      match MatchAt(s, MULTI_CHAR_TOKENS)
      case Some(t) =>
        TokenizeMatched(s, t);
        TokenizeRoundTrip(s[|t|..]);
        ConcatCons(t, Tokenize(s[|t|..]));
        assert s == t + s[|t|..];
      case None =>
        TokenizeUnmatched(s);
        TokenizeRoundTrip(s[1..]);
        ConcatCons([s[0]], Tokenize(s[1..]));
        assert s == [s[0]] + s[1..];
    }
  }

  /** Each token is "Ch" or a single character. */
  lemma {:induction false} TokenShapes(s: string)
    ensures forall k :: 0 <= k < |Tokenize(s)| ==> Tokenize(s)[k] == "Ch" || |Tokenize(s)[k]| == 1
    decreases |s|
  {
    if |s| > 0 {
      match MatchAt(s, MULTI_CHAR_TOKENS)
      case Some(t) =>
        TokenizeMatched(s, t);
        TokenShapes(s[|t|..]);
        assert t == "Ch";
        ConsShapes(t, Tokenize(s[|t|..]));
      case None =>
        TokenizeUnmatched(s);
        TokenShapes(s[1..]);
        ConsShapes([s[0]], Tokenize(s[1..]));
    }
  }

  /** Putting a "Ch" or single-character token in front of such tokens keeps that shape. */
  lemma ConsShapes(t: string, rest: seq<string>)
    requires t == "Ch" || |t| == 1
    requires forall k :: 0 <= k < |rest| ==> rest[k] == "Ch" || |rest[k]| == 1
    ensures forall k :: 0 <= k < |[t] + rest| ==> ([t] + rest)[k] == "Ch" || |([t] + rest)[k]| == 1
  {
    forall k | 1 <= k < |[t] + rest| ensures ([t] + rest)[k] == rest[k - 1] {
    }
  }

  /** "Ch" is matched greedily: wherever the remaining input starts with "Ch", the next token is "Ch". */
  lemma GreedyCh(s: string)
    requires |s| >= 2 && s[..2] == "Ch"
    ensures Tokenize(s) == ["Ch"] + Tokenize(s[2..])
  {
  }

  /** Otherwise the next token is the first character alone. */
  lemma SingleCharToken(s: string)
    requires |s| > 0 && !(|s| >= 2 && s[..2] == "Ch")
    ensures Tokenize(s) == [[s[0]]] + Tokenize(s[1..])
  {
  }

  /** Every character of every token is a character of the input. */
  lemma {:induction false} TokenCharsFromInput(s: string)
    ensures forall k, c :: 0 <= k < |Tokenize(s)| && c in Tokenize(s)[k] ==> c in s
  {
    TokenizeRoundTrip(s);
    var ts := Tokenize(s);
    forall k, c | 0 <= k < |ts| && c in ts[k]
      ensures c in s
    {
      ConcatContains(ts, k, c);
    }
  }

  lemma {:induction false} ConcatContains(ts: seq<string>, k: nat, c: char)
    requires k < |ts| && c in ts[k]
    ensures c in Concat(ts)
  {
    if k > 0 {
      ConcatContains(ts[1..], k - 1, c);
    }
  }

  // ---------------------------------------------------------------------------------------------
  // Groups

  /** A run of `count` tokens starting at token index `start`, labelled with its first token. */
  datatype Group = Group(token: string, start: nat, count: nat)

  /**
   * Token `i` extends a run of `cur`: it equals `cur`, or it is a single misrecognition with `cur`
   * on both sides (`i > ERROR_CONTEXT_SIZE` and `i < |tokens| - ERROR_CONTEXT_SIZE`).
   */
  predicate Extends(tokens: seq<string>, i: nat, cur: string)
  {
    i < |tokens| &&
    (tokens[i] == cur ||
     (i > ERROR_CONTEXT_SIZE && i < |tokens| - ERROR_CONTEXT_SIZE &&
      tokens[i - ERROR_CONTEXT_SIZE] == cur && tokens[i + ERROR_CONTEXT_SIZE] == cur))
  }

  /** The groups from token `i` on, `g` being the group that is open at `i`. */
  function GroupsFrom(tokens: seq<string>, i: nat, g: Group): seq<Group>
    requires 1 <= i <= |tokens| && g.start + g.count == i
    decreases |tokens| - i
  {
    if i == |tokens| then [g]
    else if Extends(tokens, i, g.token) then GroupsFrom(tokens, i + 1, g.(count := g.count + 1))
    else [g] + GroupsFrom(tokens, i + 1, Group(tokens[i], i, 1))
  }

  function Groups(tokens: seq<string>): seq<Group>
  {
    if |tokens| == 0 then [] else GroupsFrom(tokens, 1, Group(tokens[0], 0, 1))
  }

  /** A group labelled by its first token, every later token of which extends it. */
  predicate Member(tokens: seq<string>, g: Group)
  {
    g.count >= 1 && g.start + g.count <= |tokens| && tokens[g.start] == g.token &&
    forall j :: g.start < j < g.start + g.count ==> Extends(tokens, j, g.token)
  }

  /**
   * The groups tile `tokens[from..]` from left to right, each is a member, and each ends because
   * the next token does not extend it (so consecutive groups carry distinct tokens).
   */
  predicate Tiling(tokens: seq<string>, gs: seq<Group>, from: nat)
  {
    && |gs| > 0 && gs[0].start == from
    && (forall k :: 0 <= k < |gs| ==> Member(tokens, gs[k]))
    && (forall k :: 0 <= k < |gs| - 1 ==> gs[k].start + gs[k].count == gs[k + 1].start)
    && (forall k :: 0 <= k < |gs| - 1 ==> !Extends(tokens, gs[k + 1].start, gs[k].token))
    && gs[|gs| - 1].start + gs[|gs| - 1].count == |tokens|
  }

  lemma {:induction false} GroupsFromTiling(tokens: seq<string>, i: nat, g: Group)
    requires 1 <= i <= |tokens| && g.start + g.count == i && Member(tokens, g)
    ensures Tiling(tokens, GroupsFrom(tokens, i, g), g.start)
    ensures GroupsFrom(tokens, i, g)[0].token == g.token
    decreases |tokens| - i
  {
    if i < |tokens| {
      if Extends(tokens, i, g.token) {
        var longer := g.(count := g.count + 1);
        assert Member(tokens, longer);
        assert GroupsFrom(tokens, i, g) == GroupsFrom(tokens, i + 1, longer);
        GroupsFromTiling(tokens, i + 1, longer);
      } else {
        var next := Group(tokens[i], i, 1);
        var rest := GroupsFrom(tokens, i + 1, next);
        assert GroupsFrom(tokens, i, g) == [g] + rest;
        GroupsFromTiling(tokens, i + 1, next);
        TilingCons(tokens, g, rest);
      }
    }
  }

  /** A member followed by a tiling that it does not extend into is a tiling from the member's start. */
  lemma TilingCons(tokens: seq<string>, g: Group, rest: seq<Group>)
    requires Member(tokens, g) && Tiling(tokens, rest, g.start + g.count)
    requires !Extends(tokens, rest[0].start, g.token)
    ensures Tiling(tokens, [g] + rest, g.start)
  {
    var gs := [g] + rest;
    assert forall k :: 1 <= k < |gs| ==> gs[k] == rest[k - 1];
    assert forall k :: 0 <= k < |gs| ==> Member(tokens, gs[k]);
    assert forall k :: 0 <= k < |gs| - 1 ==> gs[k].start + gs[k].count == gs[k + 1].start;
    assert forall k :: 0 <= k < |gs| - 1 ==> !Extends(tokens, gs[k + 1].start, gs[k].token);
  }

  function SumCounts(gs: seq<Group>): nat
  {
    if |gs| == 0 then 0 else gs[0].count + SumCounts(gs[1..])
  }

  lemma {:induction false} TilingSum(tokens: seq<string>, gs: seq<Group>, from: nat)
    requires Tiling(tokens, gs, from)
    ensures from + SumCounts(gs) == |tokens|
    decreases |gs|
  {
    if |gs| > 1 {
      var rest := gs[1..];
      assert forall k :: 0 <= k < |rest| ==> rest[k] == gs[k + 1];
      TilingSum(tokens, rest, gs[1].start);
    }
  }

  /**
   * The groups partition the tokens: they are empty exactly for no tokens; otherwise the first
   * starts at 0, each starts where the previous ends, the last ends at the end, each group is
   * labelled by its first token and extended by every later one, each ends because the next token
   * does not extend it, and the counts sum to the number of tokens.
   */
  lemma GroupsPartition(tokens: seq<string>)
    ensures |Groups(tokens)| == 0 <==> |tokens| == 0
    ensures |tokens| > 0 ==> Tiling(tokens, Groups(tokens), 0)
    ensures SumCounts(Groups(tokens)) == |tokens|
    ensures forall k :: 0 <= k < |Groups(tokens)| - 1 ==> Groups(tokens)[k].token != Groups(tokens)[k + 1].token
  {
    if |tokens| > 0 {
      var gs := Groups(tokens);
      GroupsFromTiling(tokens, 1, Group(tokens[0], 0, 1));
      TilingSum(tokens, gs, 0);
      forall k | 0 <= k < |gs| - 1
        ensures gs[k].token != gs[k + 1].token
      {
        assert Member(tokens, gs[k + 1]);
        assert !Extends(tokens, gs[k + 1].start, gs[k].token);
      }
    }
  }

  /**
   * A single misrecognised token does not break a run: when the tokens on both sides of index `i`
   * (with `1 < i < |tokens| - 1`) equal the open group's token, index `i` extends the group.
   */
  lemma GlitchTolerated(tokens: seq<string>, i: nat, g: Group)
    requires 1 < i < |tokens| - 1 && g.start + g.count == i
    requires tokens[i - 1] == g.token && tokens[i + 1] == g.token
    ensures GroupsFrom(tokens, i, g) == GroupsFrom(tokens, i + 1, g.(count := g.count + 1))
  {
  }

  // ---------------------------------------------------------------------------------------------
  // Text

  /**
   * A group is written out when it is long enough; g and f need only half the length. The tokens
   * whose `toLowerCase()` is "g" or "f" are exactly these four one-character strings.
   */
  predicate Emits(g: Group)
  {
    g.count >= MIN_GROUP_LENGTH ||
    (g.token in ["g", "G", "f", "F"] && g.count >= MIN_GROUP_LENGTH / 2)
  }

  /** What a finished group contributes: its token once, then a space if the group is very long. */
  function Render(g: Group): string
  {
    if Emits(g) then g.token + (if g.count >= SPACE_INSERT_THRESHOLD then " " else "") else ""
  }

  function Text(gs: seq<Group>): string
  {
    if |gs| == 0 then "" else Render(gs[0]) + Text(gs[1..])
  }

  lemma {:induction false} TextAppend(a: seq<Group>, b: seq<Group>)
    ensures Text(a + b) == Text(a) + Text(b)
  {
    if |a| > 0 {
      var ab := a + b;
      assert ab[0] == a[0] && ab[1..] == a[1..] + b;
      TextAppend(a[1..], b);
      var head := Render(a[0]);
      assert Text(ab) == head + Text(a[1..] + b);
      assert Text(a) == head + Text(a[1..]);
      AppendAssoc(head, Text(a[1..]), Text(b));
    } else {
      assert a + b == b;
    }
  }

  /** The text `convertRecognitionsToText` returns for `input`. */
  function Collapse(input: string): string
  {
    Text(Groups(Tokenize(input)))
  }

  /**
   * `convertRecognitionsToText`: a tokenising while loop (trying each multi-character token in
   * turn), then one pass over the tokens that extends the open group or closes it, writes it out
   * if it qualifies, and opens the next.
   */
  method ConvertRecognitionsToText(input: string) returns (result: string)
    ensures result == Collapse(input)
  {
    var tokens := TokenizeInput(input);
    result := CollapseTokens(tokens);
  }

  /** The tokenising while loop of `convertRecognitionsToText`. */
  method TokenizeInput(input: string) returns (tokens: seq<string>)
    ensures tokens == Tokenize(input)
  {
    tokens := [];
    var i := 0;
    assert input[0..] == input;
    while i < |input|
      invariant 0 <= i <= |input|
      invariant tokens + TokensFrom(input, i) == Tokenize(input)
      decreases |input| - i
    {
      tokens, i := PushNextToken(input, i, tokens);
    }
    assert TokensFrom(input, i) == [];
  }

  /** One iteration of the tokenising loop: the next token pushed, the position moved past it. */
  method PushNextToken(input: string, i: nat, tokens: seq<string>) returns (tokens': seq<string>, i': nat)
    requires i < |input|
    ensures i < i' <= |input|
    ensures tokens' + TokensFrom(input, i') == tokens + TokensFrom(input, i)
  {
    var token := NextToken(input, i);
    PushToken(tokens, token, TokensFrom(input, i), TokensFrom(input, i + |token|));
    tokens' := tokens + [token];
    i' := i + |token|;
  }

  /** The tokens of the input from position `i` on. */
  ghost function TokensFrom(input: string, i: nat): seq<string>
    requires i <= |input|
  {
    Tokenize(input[i..])
  }

  /**
   * One pass of the tokenising loop at position `i`: the first multi-character token that the
   * input continues with, else the single character at `i`.
   */
  method NextToken(input: string, i: nat) returns (token: string)
    requires i < |input|
    ensures 0 < |token| && i + |token| <= |input|
    ensures TokensFrom(input, i) == [token] + TokensFrom(input, i + |token|)
  {
    var rest := input[i..];
    var k := 0;
    while k < |MULTI_CHAR_TOKENS|
      invariant 0 <= k <= |MULTI_CHAR_TOKENS|
      invariant MatchAt(rest, MULTI_CHAR_TOKENS) == MatchAt(rest, MULTI_CHAR_TOKENS[k..])
    {
      token := MULTI_CHAR_TOKENS[k];
      if |token| <= |rest| && rest[..|token|] == token {
        MatchAtHit(rest, MULTI_CHAR_TOKENS, k);
        TokenizeMatched(rest, token);
        assert rest[|token|..] == input[i + |token|..];
        return;
      }
      MatchAtSkip(rest, MULTI_CHAR_TOKENS, k);
      k := k + 1;
    }
    assert MULTI_CHAR_TOKENS[k..] == [];
    TokenizeUnmatched(rest);
    token := [input[i]];
    assert rest[1..] == input[i + 1..];
  }

  /** Moving the next token from the untokenised rest to the tokens keeps their concatenation. */
  lemma PushToken(tokens: seq<string>, token: string, rest: seq<string>, later: seq<string>)
    requires rest == [token] + later
    ensures (tokens + [token]) + later == tokens + rest
  {
    assert tokens + ([token] + later) == (tokens + [token]) + later;
  }

  lemma MatchAtSkip(s: string, candidates: seq<string>, k: nat)
    requires k < |candidates| && !(|candidates[k]| <= |s| && s[..|candidates[k]|] == candidates[k])
    ensures MatchAt(s, candidates[k..]) == MatchAt(s, candidates[k + 1..])
  {
    assert candidates[k..][0] == candidates[k] && candidates[k..][1..] == candidates[k + 1..];
  }

  lemma MatchAtHit(s: string, candidates: seq<string>, k: nat)
    requires k < |candidates| && |candidates[k]| <= |s| && s[..|candidates[k]|] == candidates[k]
    ensures MatchAt(s, candidates[k..]) == Some(candidates[k])
  {
    assert candidates[k..][0] == candidates[k];
  }

  lemma TokenizeMatched(s: string, t: string)
    requires |s| > 0 && MatchAt(s, MULTI_CHAR_TOKENS) == Some(t)
    ensures |t| > 0 && Tokenize(s) == [t] + Tokenize(s[|t|..])
  {
  }

  lemma TokenizeUnmatched(s: string)
    requires |s| > 0 && MatchAt(s, MULTI_CHAR_TOKENS) == None
    ensures Tokenize(s) == [[s[0]]] + Tokenize(s[1..])
  {
  }

  /** The grouping for loop of `convertRecognitionsToText`. */
  method CollapseTokens(tokens: seq<string>) returns (result: string)
    ensures result == Text(Groups(tokens))
  {
    result := "";
    if |tokens| == 0 {
      // Nothing to collapse: in the source the open token is then `undefined` and never read.
      return;
    }
    var currentToken := tokens[0];
    var count: nat := 1;
    ghost var start: nat := 0;
    for n := 1 to |tokens| + 1
      invariant count >= 1 && (n <= |tokens| ==> start + count == n)
      invariant n <= |tokens| ==>
        result + Text(GroupsFrom(tokens, n, Group(currentToken, start, count))) == Text(Groups(tokens))
      invariant n == |tokens| + 1 ==> result == Text(Groups(tokens))
    {
      var isValidExtension := Extends(tokens, n, currentToken);
      if isValidExtension {
        assert GroupsFrom(tokens, n, Group(currentToken, start, count)) == GroupsFrom(tokens, n + 1, Group(currentToken, start, count + 1));
        count := count + 1;
      } else {
        ghost var g := Group(currentToken, start, count);
        CloseGroup(tokens, n, g);
        ghost var before := result;
        if count >= MIN_GROUP_LENGTH || (currentToken in ["g", "G", "f", "F"] && count >= MIN_GROUP_LENGTH / 2) {
          result := result + currentToken;
          if count >= SPACE_INSERT_THRESHOLD {
            result := result + " ";
          }
        }
        assert result == before + Render(g);
        if n < |tokens| {
          ghost var later := Text(GroupsFrom(tokens, n + 1, Group(tokens[n], n, 1)));
          ghost var written := Render(g);
          assert Text(GroupsFrom(tokens, n, g)) == written + later;
          AppendAssoc(before, written, later);
          currentToken := tokens[n];
          count := 1;
          start := n;
        }
      }
    }
  }

  lemma AppendAssoc(a: string, b: string, c: string)
    ensures (a + b) + c == a + (b + c)
  {
  }

  /** Closing the open group at `i` writes it out and continues with the group opened by `tokens[i]`. */
  lemma CloseGroup(tokens: seq<string>, i: nat, g: Group)
    requires 1 <= i <= |tokens| && g.start + g.count == i && !Extends(tokens, i, g.token)
    ensures i < |tokens| ==> Text(GroupsFrom(tokens, i, g)) == Render(g) + Text(GroupsFrom(tokens, i + 1, Group(tokens[i], i, 1)))
    ensures i == |tokens| ==> Text(GroupsFrom(tokens, i, g)) == Render(g)
  {
    if i < |tokens| {
      TextAppend([g], GroupsFrom(tokens, i + 1, Group(tokens[i], i, 1)));
    } else {
      assert Text([g]) == Render(g) + Text([]);
    }
  }

  /** Empty input gives empty output. */
  lemma EmptyInput()
    ensures Collapse("") == ""
  {
  }

  /** A group contributes its token exactly when it qualifies, followed by a space exactly when count >= 20. */
  lemma RenderCases(g: Group)
    ensures Emits(g) <==> g.count >= 6 || (g.token in ["g", "G", "f", "F"] && g.count >= 3)
    ensures Emits(g) && g.count >= 20 ==> Render(g) == g.token + " "
    ensures Emits(g) && g.count < 20 ==> Render(g) == g.token
    ensures !Emits(g) ==> Render(g) == ""
  {
  }

  /** The output is made of the groups' tokens, in the groups' order, and spaces. */
  lemma {:induction false} TextChars(tokens: seq<string>, gs: seq<Group>, c: char)
    requires forall k :: 0 <= k < |gs| ==> gs[k].start < |tokens| && tokens[gs[k].start] == gs[k].token
    requires c in Text(gs)
    ensures c == ' ' || exists k :: 0 <= k < |gs| && c in gs[k].token
  {
    if |gs| > 0 {
      if c !in Render(gs[0]) {
        assert forall k :: 0 <= k < |gs[1..]| ==> gs[1..][k] == gs[k + 1];
        TextChars(tokens, gs[1..], c);
        if c != ' ' {
          var k :| 0 <= k < |gs[1..]| && c in gs[1..][k].token;
          assert c in gs[k + 1].token;
        }
      } else if c != ' ' {
        assert c in gs[0].token;
      }
    }
  }

  /** Every output character is a space or a character of the input. */
  lemma OutputChars(input: string, c: char)
    requires c in Collapse(input)
    ensures c == ' ' || c in input
  {
    var tokens := Tokenize(input);
    var gs := Groups(tokens);
    GroupsPartition(tokens);
    TextChars(tokens, gs, c);
    TokenCharsFromInput(input);
    if c != ' ' {
      var k :| 0 <= k < |gs| && c in gs[k].token;
      assert tokens[gs[k].start] == gs[k].token;
    }
  }

  /** Without a 'C' in the input every token is a single character. */
  lemma {:induction false} TokenizeWithoutC(s: string)
    requires 'C' !in s
    ensures Tokenize(s) == seq(|s|, i requires 0 <= i < |s| => [s[i]])
    decreases |s|
  {
    if |s| > 0 {
      assert s[0] != 'C';
      assert MatchAt(s, MULTI_CHAR_TOKENS) == None by {
        if |s| >= 2 {
          assert s[..2][0] == s[0];
        }
        assert MULTI_CHAR_TOKENS[1..] == [];
      }
      TokenizeWithoutC(s[1..]);
    }
  }

  /** A one-token misrecognition inside a run of a's still yields one "a". */
  lemma GlitchExample()
    ensures Collapse("aaaXaaa") == "a"
  {
    GlitchTokens();
    GlitchGroups();
  }

  lemma GlitchTokens()
    ensures Tokenize("aaaXaaa") == ["a", "a", "a", "X", "a", "a", "a"]
  {
    TokenizeWithoutC("aaaXaaa");
  }

  lemma GlitchGroups()
    ensures Text(Groups(["a", "a", "a", "X", "a", "a", "a"])) == "a"
  {
    var ts := ["a", "a", "a", "X", "a", "a", "a"];
    assert GroupsFrom(ts, 6, Group("a", 0, 6)) == [Group("a", 0, 7)];
    assert GroupsFrom(ts, 4, Group("a", 0, 4)) == [Group("a", 0, 7)];
    assert GroupsFrom(ts, 3, Group("a", 0, 3)) == [Group("a", 0, 7)];
    assert GroupsFrom(ts, 1, Group("a", 0, 1)) == [Group("a", 0, 7)];
    assert Text([Group("a", 0, 7)]) == "a" + Text([]);
  }

  /**
   * The tolerance does not apply at token index 1 (`i > ERROR_CONTEXT_SIZE`): here the run of a's
   * is cut into 1 and 4 and nothing is written, though a tolerated index 1 would give a run of 6.
   */
  lemma NoToleranceAtIndexOne()
    ensures Collapse("aXaaaa") == ""
  {
    IndexOneTokens();
    IndexOneGroups();
  }

  lemma IndexOneTokens()
    ensures Tokenize("aXaaaa") == ["a", "X", "a", "a", "a", "a"]
  {
    TokenizeWithoutC("aXaaaa");
  }

  lemma IndexOneGroups()
    ensures Groups(["a", "X", "a", "a", "a", "a"]) == [Group("a", 0, 1), Group("X", 1, 1), Group("a", 2, 4)]
    ensures Text([Group("a", 0, 1), Group("X", 1, 1), Group("a", 2, 4)]) == ""
  {
    var ts := ["a", "X", "a", "a", "a", "a"];
    var gs := [Group("a", 0, 1), Group("X", 1, 1), Group("a", 2, 4)];
    assert GroupsFrom(ts, 3, Group("a", 2, 1)) == [Group("a", 2, 4)];
    assert GroupsFrom(ts, 2, Group("X", 1, 1)) == gs[1..];
    assert GroupsFrom(ts, 1, Group("a", 0, 1)) == gs;
    assert Text(gs[2..]) == "" by {
      assert Text(gs[2..]) == Render(gs[2]) + Text([]);
    }
    assert Text(gs[1..]) == "" by {
      assert gs[1..][1..] == gs[2..];
    }
  }

  /** "Ch" is one token: a run of six "Ch" gives "Ch". */
  lemma ChExample()
    ensures Collapse("ChChChChChCh") == "Ch"
  {
    var s := "ChChChChChCh";
    var ts := ["Ch", "Ch", "Ch", "Ch", "Ch", "Ch"];
    assert Tokenize(s[12..]) == [];
    GreedyCh(s[10..]);
    assert s[10..][2..] == s[12..];
    GreedyCh(s[8..]);
    assert s[8..][2..] == s[10..];
    GreedyCh(s[6..]);
    assert s[6..][2..] == s[8..];
    GreedyCh(s[4..]);
    assert s[4..][2..] == s[6..];
    GreedyCh(s[2..]);
    assert s[2..][2..] == s[4..];
    GreedyCh(s);
    assert Tokenize(s) == ts;
    assert GroupsFrom(ts, 1, Group("Ch", 0, 1)) == [Group("Ch", 0, 6)];
    assert Text([Group("Ch", 0, 6)]) == "Ch" + Text([]);
  }
}
