/** The text command: split on spaces, each token resolved case-insensitively
    to one turn, a face letter followed by 2 to that turn twice, and any other
    token skipped. */
module Command {
  import opened Moves
  import opened Rotation

  predicate IsToken(t: string) {
    t != [] && ' ' !in t
  }

  /** Splitting on spaces with empty entries removed; cur is the token read so far. */
  function SplitFrom(s: string, cur: string): (tokens: seq<string>)
    requires ' ' !in cur
    ensures forall i :: 0 <= i < |tokens| ==> IsToken(tokens[i])
    decreases |s|
  {
    if s == [] then (if cur == [] then [] else [cur])
    else if s[0] == ' ' then (if cur == [] then [] else [cur]) + SplitFrom(s[1..], [])
    else SplitFrom(s[1..], cur + [s[0]])
  }

  /** The tokens of a command: its maximal runs of non-space characters. */
  function Split(command: string): (tokens: seq<string>)
    ensures forall i :: 0 <= i < |tokens| ==> IsToken(tokens[i])
  {
    SplitFrom(command, [])
  }

  /** Tokens written out with one space between neighbours. */
  function Join(tokens: seq<string>): string
    decreases |tokens|
  {
    if tokens == [] then []
    else if |tokens| == 1 then tokens[0]
    else tokens[0] + " " + Join(tokens[1..])
  }

  lemma {:induction false} SplitFromWord(w: string, rest: string, cur: string)
    requires ' ' !in w && ' ' !in cur
    ensures SplitFrom(w + rest, cur) == SplitFrom(rest, cur + w)
    decreases |w|
  {
    if w == [] {
      assert w + rest == rest;
      assert cur + w == cur;
    } else {
      assert (w + rest)[0] == w[0];
      assert (w + rest)[1..] == w[1..] + rest;
      assert (cur + [w[0]]) + w[1..] == cur + w;
      SplitFromWord(w[1..], rest, cur + [w[0]]);
    }
  }

  /** A space ends whatever token is being read: the text before it and the
      text after it split independently, so leading, doubled and trailing
      spaces add no empty tokens. */
  lemma {:induction false} SplitFromSpace(a: string, b: string, cur: string)
    requires ' ' !in cur
    ensures SplitFrom(a + [' '] + b, cur) == SplitFrom(a, cur) + Split(b)
    decreases |a|
  {
    var s := a + [' '] + b;
    if a == [] {
      assert s[0] == ' ' && s[1..] == b;
    } else {
      assert s[0] == a[0];
      assert s[1..] == a[1..] + [' '] + b;
      if a[0] == ' ' {
        SplitFromSpace(a[1..], b, []);
      } else {
        SplitFromSpace(a[1..], b, cur + [a[0]]);
      }
    }
  }

  /** A command splits at a space into the tokens before it and those after. */
  lemma SplitOnSpace(a: string, b: string)
    ensures Split(a + [' '] + b) == Split(a) + Split(b)
  {
    SplitFromSpace(a, b, []);
  }

  /** A non-empty run of non-space characters is one token. */
  lemma SplitWord(w: string)
    requires IsToken(w)
    ensures Split(w) == [w]
  {
    SplitFromWord(w, [], []);
    assert w + [] == w && [] + w == w;
  }

  /** Surplus spaces around and between tokens are dropped. */
  lemma SplitExample()
    ensures Split(" r  u ") == ["r", "u"]
  {
    assert " r  u " == [] + [' '] + "r  u ";
    SplitOnSpace([], "r  u ");
    assert "r  u " == "r" + [' '] + " u ";
    SplitOnSpace("r", " u ");
    SplitWord("r");
    assert " u " == [] + [' '] + "u ";
    SplitOnSpace([], "u ");
    assert "u " == "u" + [' '] + [];
    SplitOnSpace("u", []);
    SplitWord("u");
  }

  /** Splitting a command written with single spaces gives back its tokens. */
  lemma {:induction false} SplitJoin(tokens: seq<string>)
    requires forall i :: 0 <= i < |tokens| ==> IsToken(tokens[i])
    ensures Split(Join(tokens)) == tokens
    decreases |tokens|
  {
    if tokens != [] {
      var t := tokens[0];
      if |tokens| == 1 {
        SplitFromWord(t, [], []);
        assert t + [] == t && [] + t == t;
      } else {
        var rest := tokens[1..];
        assert Join(tokens) == t + (" " + Join(rest));
        SplitFromWord(t, " " + Join(rest), []);
        assert [] + t == t;
        assert (" " + Join(rest))[1..] == Join(rest);
        SplitJoin(rest);
        assert tokens == [t] + rest;
      }
    }
  }

  /** The turns one token stands for: a move name in any case is that turn, a
      face letter followed by 2 is that turn twice, and anything else is none. */
  function TokenMoves(token: string): (ms: seq<Move>)
    ensures |ms| <= 2
  {
    match Lookup(token)
    case Some(m) => [m]
    case None =>
      if |token| == 2 && token[1] == '2' then
        match Lookup(token[..1])
        case Some(m) => [m, m]
        case None => []
      else []
  }

  /** The turns of a token list, left to right. */
  function CommandMoves(tokens: seq<string>): seq<Move>
    decreases |tokens|
  {
    if tokens == [] then [] else TokenMoves(tokens[0]) + CommandMoves(tokens[1..])
  }

  lemma {:induction false} CommandMovesAppend(a: seq<string>, b: seq<string>)
    ensures CommandMoves(a + b) == CommandMoves(a) + CommandMoves(b)
    decreases |a|
  {
    if a == [] {
      assert a + b == b;
    } else {
      assert (a + b)[0] == a[0];
      assert (a + b)[1..] == a[1..] + b;
      CommandMovesAppend(a[1..], b);
    }
  }

  /** What a command does to the grid. */
  function RunCommand(g: Grid, command: string): Grid {
    ApplyAll(g, CommandMoves(Split(command)))
  }

  /** Tokens take effect left to right: a token list is its first part followed
      by the rest. */
  lemma TokensLeftToRight(g: Grid, a: seq<string>, b: seq<string>)
    ensures ApplyAll(g, CommandMoves(a + b)) == ApplyAll(ApplyAll(g, CommandMoves(a)), CommandMoves(b))
  {
    CommandMovesAppend(a, b);
    ApplyAllAppend(g, CommandMoves(a), CommandMoves(b));
  }

  /** Running the first i + 1 tokens is running the first i and then token i. */
  lemma RunTokensStep(g: Grid, tokens: seq<string>, i: nat)
    requires i < |tokens|
    ensures ApplyAll(g, CommandMoves(tokens[..i + 1])) ==
      ApplyAll(ApplyAll(g, CommandMoves(tokens[..i])), TokenMoves(tokens[i]))
  {
    assert tokens[..i + 1] == tokens[..i] + [tokens[i]];
    assert CommandMoves([tokens[i]]) == TokenMoves(tokens[i]);
    TokensLeftToRight(g, tokens[..i], [tokens[i]]);
  }

  /** The grid after one token, spelled out case by case. */
  lemma TokenEffect(g: Grid, token: string)
    ensures Lookup(token).Some? ==>
      ApplyAll(g, TokenMoves(token)) == Apply(g, Lookup(token).value)
    ensures Lookup(token).None? && |token| == 2 && token[1] == '2' && Lookup(token[..1]).Some? ==>
      ApplyAll(g, TokenMoves(token)) == Apply(Apply(g, Lookup(token[..1]).value), Lookup(token[..1]).value)
    ensures Lookup(token).None? && !(|token| == 2 && token[1] == '2' && Lookup(token[..1]).Some?) ==>
      ApplyAll(g, TokenMoves(token)) == g
  {
    var ms := TokenMoves(token);
    if ms != [] {
      assert ApplyAll(g, ms) == ApplyAll(Apply(g, ms[0]), ms[1..]);
      if |ms| == 2 {
        assert ApplyAll(Apply(g, ms[0]), ms[1..]) == ApplyAll(Apply(Apply(g, ms[0]), ms[1]), []);
      }
    }
  }

  /** "x2" does what "x x" does, for every face letter x in either case. */
  lemma DoubleTurnIsTwoTurns(g: Grid, c: char)
    requires IsMoveName([c])
    ensures RunCommand(g, [c, '2']) == RunCommand(g, [c, ' ', c])
    ensures RunCommand(g, [c, '2']) == Apply(Apply(g, Resolve([c])), Resolve([c]))
  {
    assert c != ' ';
    assert Split([c, '2']) == [[c, '2']] by {
      var s := [c, '2'];
      assert s[0] == c && s[1..] == ['2'] && [] + [c] == [c];
      assert SplitFrom(s, []) == SplitFrom(['2'], [c]);
      assert ['2'][0] == '2' && ['2'][1..] == [] && [c] + ['2'] == s;
      assert SplitFrom(['2'], [c]) == SplitFrom([], s);
    }
    assert Split([c, ' ', c]) == [[c], [c]] by {
      var s := [c, ' ', c];
      assert s[0] == c && s[1..] == [' ', c] && [] + [c] == [c];
      assert SplitFrom(s, []) == SplitFrom([' ', c], [c]);
      assert [' ', c][0] == ' ' && [' ', c][1..] == [c];
      assert SplitFrom([' ', c], [c]) == [[c]] + SplitFrom([c], []);
      assert [c][0] == c && [c][1..] == [];
      assert SplitFrom([c], []) == SplitFrom([], [c]) == [[c]];
    }
    var m := Resolve([c]);
    assert [c, '2'][..1] == [c];
    assert TokenMoves([c, '2']) == [m, m];
    assert CommandMoves([[c, '2']]) == [m, m];
    assert CommandMoves([[c], [c]]) == [m] + CommandMoves([[c]]);
    assert CommandMoves([[c], [c]]) == [m, m];
    assert ApplyAll(g, [m, m]) == ApplyAll(Apply(g, m), [m]);
  }

  lemma LowerTwice(c: char)
    ensures Lower(Lower(c)) == Lower(c)
  {
  }

  /** Move lookup ignores case. */
  lemma LookupIgnoresCase(s: string)
    ensures Lookup(LowerString(s)) == Lookup(s)
  {
    var t := LowerString(s);
    if |s| >= 1 {
      LowerTwice(s[0]);
      assert Lower(t[0]) == Lower(s[0]);
    }
  }

  /** A token means the same turns in any case. */
  lemma TokenIgnoresCase(token: string)
    ensures TokenMoves(LowerString(token)) == TokenMoves(token)
  {
    var t := LowerString(token);
    LookupIgnoresCase(token);
    if |token| == 2 {
      assert t[..1] == LowerString(token[..1]);
      LookupIgnoresCase(token[..1]);
    }
  }

  /** A token that is neither a move name nor a move name followed by 2 can be
      dropped from any command without changing its turns. */
  lemma UnknownTokenSkipped(a: seq<string>, t: string, b: seq<string>)
    requires !IsMoveName(t)
    requires !(|t| == 2 && t[1] == '2' && IsMoveName(t[..1]))
    ensures CommandMoves(a + [t] + b) == CommandMoves(a + b)
  {
    assert TokenMoves(t) == [];
    assert CommandMoves([t]) == [] by {
      assert [t][1..] == [];
    }
    CommandMovesAppend(a + [t], b);
    CommandMovesAppend(a, [t]);
    CommandMovesAppend(a, b);
    assert CommandMoves(a + [t]) == CommandMoves(a);
  }
}
