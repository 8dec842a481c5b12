/** Every proper tree is what its own text parses to, so a text has at most one tree. */
module GrammarComplete {
  import opened Grammar

  lemma {:induction false} BlanksOf(ws: string, y: string)
    requires Blank(ws) && (y == "" || !IsBlank(y[0]))
    ensures Blanks(ws + y) == ws && Skip(ws + y) == y
  {
    if ws == "" {
      assert ws + y == y;
    } else {
      BlanksOf(ws[1..], y);
      assert (ws + y)[1..] == ws[1..] + y;
    }
  }

  lemma {:induction false} AllBlank(ws: string)
    requires Blank(ws)
    ensures Blanks(ws) == ws && Skip(ws) == ""
  {
    if ws != "" {
      AllBlank(ws[1..]);
    }
  }

  lemma {:induction false} DigitsOf(d: string, rest: string)
    requires Digits(d) && FollowF(rest)
    ensures LeadingDigits(d + rest) == d
  {
    if d == "" {
      assert d + rest == rest;
    } else {
      DigitsOf(d[1..], rest);
      assert (d + rest)[1..] == d[1..] + rest;
    }
  }

  // What may follow a factor, a power, a term, an expression without becoming part of it.
  predicate FollowF(s: string) {
    s == "" || !IsDigit(s[0])
  }

  predicate FollowP(s: string) {
    FollowF(s) && !StartsWith(Skip(s), '^')
  }

  predicate FollowT(s: string) {
    FollowP(s) && !StartsWith(Skip(s), '*') && !StartsWith(Skip(s), '/')
  }

  predicate FollowE(s: string) {
    FollowT(s) && !StartsWith(Skip(s), '+') && !StartsWith(Skip(s), '-')
  }

  /** An operator, with blanks before it, is never swallowed. */
  lemma OpNext(ws: string, c: char, x: string)
    requires Blank(ws) && !IsBlank(c) && !IsDigit(c)
    ensures var s := ws + ([c] + x);
            Blanks(s) == ws && Skip(s) == [c] + x && FollowF(s) && Skip(s)[1..] == x && StartsWith(Skip(s), c)
  {
    BlanksOf(ws, [c] + x);
    assert ([c] + x)[1..] == x;
  }

  lemma {:induction false} CompleteF(f: Factor, rest: string)
    requires WfF(f, 0) && FollowF(rest)
    ensures ParseF(TextF(f) + rest) == Some((f, rest))
    decreases f
  {
    match f
    case Num(ws, d) =>
      CompleteNum(ws, d, rest);
    case Neg(ws, g) =>
      Regroup("", ws, '-', TextF(g), rest);
      OpNext(ws, '-', TextF(g) + rest);
      CompleteF(g, rest);
    case Pos(ws, g) =>
      Regroup("", ws, '+', TextF(g), rest);
      OpNext(ws, '+', TextF(g) + rest);
      CompleteF(g, rest);
    case Paren(ws, e, ws2) =>
      var close := ws2 + ([')'] + rest);
      OpNext(ws2, ')', rest);
      CompleteE(e, close);
      CompleteParen(ws, e, ws2, rest);
  }

  lemma CompleteNum(ws: string, d: string, rest: string)
    requires Blank(ws) && d != "" && Digits(d) && FollowF(rest)
    ensures ParseF((ws + d) + rest) == Some((Num(ws, d), rest))
  {
    assert (ws + d) + rest == ws + (d + rest);
    assert (d + rest)[0] == d[0] && (d + rest)[|d|..] == rest;
    BlanksOf(ws, d + rest);
    DigitsOf(d, rest);
  }

  lemma CompleteParen(ws: string, e: Expr, ws2: string, rest: string)
    requires Blank(ws) && Blank(ws2)
    requires ParseE(TextE(e) + (ws2 + ([')'] + rest))) == Some((e, ws2 + ([')'] + rest)))
    ensures ParseF((ws + "(" + TextE(e) + ws2 + ")") + rest) == Some((Paren(ws, e, ws2), rest))
  {
    RegroupParen(ws, TextE(e), ws2, rest);
    OpNext(ws, '(', TextE(e) + (ws2 + ([')'] + rest)));
    OpNext(ws2, ')', rest);
  }

  lemma {:induction false} CompleteP(p: Power, rest: string)
    requires WfP(p, 0) && FollowP(rest)
    ensures ParseP(TextP(p) + rest) == Some((p, rest))
    decreases p
  {
    match p
    case Base(f) =>
      CompleteF(f, rest);
    case Pow(f, ws, e) =>
      var op := ws + (['^'] + (TextP(e) + rest));
      Regroup(TextF(f), ws, '^', TextP(e), rest);
      OpNext(ws, '^', TextP(e) + rest);
      CompleteF(f, op);
      CompleteP(e, rest);
  }

  /** Reading t and then going on is the same as going on with t in hand. */
  lemma {:induction false} ResumeT(t: Term, rest: string)
    requires WfT(t, 0) && FollowP(rest)
    ensures ParseT(TextT(t) + rest) == TailT(t, rest)
    decreases t, 1
  {
    match t
    case One(p) =>
      CompleteP(p, rest);
    case Mul(u, ws, p) =>
      ResumeOp(t, u, ws, '*', p, rest);
    case Div(u, ws, p) =>
      ResumeOp(t, u, ws, '/', p, rest);
  }

  lemma {:induction false} ResumeOp(t: Term, u: Term, ws: string, c: char, p: Power, rest: string)
    requires WfT(t, 0) && FollowP(rest)
    requires (c == '*' && t == Mul(u, ws, p)) || (c == '/' && t == Div(u, ws, p))
    ensures ParseT(TextT(t) + rest) == TailT(t, rest)
    decreases t, 0
  {
    var op := ws + ([c] + (TextP(p) + rest));
    Regroup(TextT(u), ws, c, TextP(p), rest);
    OpNext(ws, c, TextP(p) + rest);
    ResumeT(u, op);
    CompleteP(p, rest);
  }

  lemma CompleteT(t: Term, rest: string)
    requires WfT(t, 0) && FollowT(rest)
    ensures ParseT(TextT(t) + rest) == Some((t, rest))
    decreases t, 2
  {
    ResumeT(t, rest);
  }

  lemma {:induction false} ResumeE(e: Expr, rest: string)
    requires WfE(e, 0) && FollowT(rest)
    ensures ParseE(TextE(e) + rest) == TailE(e, rest)
    decreases e, 1
  {
    match e
    case Single(t) =>
      CompleteT(t, rest);
    case Add(d, ws, t) =>
      ResumeSum(e, d, ws, '+', t, rest);
    case Sub(d, ws, t) =>
      ResumeSum(e, d, ws, '-', t, rest);
  }

  lemma {:induction false} ResumeSum(e: Expr, d: Expr, ws: string, c: char, t: Term, rest: string)
    requires WfE(e, 0) && FollowT(rest)
    requires (c == '+' && e == Add(d, ws, t)) || (c == '-' && e == Sub(d, ws, t))
    ensures ParseE(TextE(e) + rest) == TailE(e, rest)
    decreases e, 0
  {
    var op := ws + ([c] + (TextT(t) + rest));
    Regroup(TextE(d), ws, c, TextT(t), rest);
    OpNext(ws, c, TextT(t) + rest);
    ResumeE(d, op);
    CompleteT(t, rest);
  }

  lemma CompleteE(e: Expr, rest: string)
    requires WfE(e, 0) && FollowE(rest)
    ensures ParseE(TextE(e) + rest) == Some((e, rest))
    decreases e, 2
  {
    ResumeE(e, rest);
  }

  /** A text derives from the grammar when it is a proper tree's text with blanks after it. */
  ghost predicate Derives(s: string, e: Expr, ws: string) {
    WfE(e, 0) && Blank(ws) && s == TextE(e) + ws
  }

  /** The parser finds the derivation exactly when there is one. */
  lemma ParseDerives(s: string, e: Expr, ws: string)
    ensures Derives(s, e, ws) <==> ParseE(s) == Some((e, ws)) && Skip(ws) == ""
  {
    if Derives(s, e, ws) {
      AllBlank(ws);
      CompleteE(e, ws);
    }
    if ParseE(s) == Some((e, ws)) && Skip(ws) == "" {
      SkipSplits(ws);
      assert ws == Blanks(ws);
    }
  }

  /** The grammar is unambiguous. */
  lemma Unambiguous(s: string, e: Expr, ws: string, e': Expr, ws': string)
    requires Derives(s, e, ws) && Derives(s, e', ws')
    ensures e == e' && ws == ws'
  {
    ParseDerives(s, e, ws);
    ParseDerives(s, e', ws');
  }
}
