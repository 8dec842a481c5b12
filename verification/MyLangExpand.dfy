/** Textual substitution of variables, and why it preserves the meaning of every expression. */
module MyLangExpand {
  import opened Grammar

  const NAME_MAX: nat := 15   // MAX_NAME leaves one cell for the terminator
  const BUFFER: nat := 127    // what eval_expr's 128-character buffer holds

  // ---- numbers as text ----

  function NatText(n: nat): (d: string)
    ensures d != "" && Digits(d)
  {
    (if n < 10 then "" else NatText(n / 10)) + [(n % 10) as char + '0']
  }

  lemma {:induction false} DecimalOfText(n: nat)
    ensures Decimal(NatText(n)) == n
  {
    var d := NatText(n);
    if n >= 10 {
      DecimalOfText(n / 10);
      assert d[..|d| - 1] == NatText(n / 10);
    } else {
      assert d[..|d| - 1] == "";
    }
  }

  function NumberText(v: int): string {
    if v < 0 then "-" + NatText(-v) else NatText(v)
  }

  function Value(name: string, env: Env): int {
    if name in env then env[name] else 0
  }

  // ---- expand_expr ----

  /** The identifier at the front of s, cut off at NAME_MAX characters. */
  function Name(s: string, limit: nat): (n: string)
    ensures |n| <= |s| && |n| <= limit && forall i :: 0 <= i < |n| ==> IsIdent(n[i])
  {
    if s != "" && IsIdent(s[0]) && limit > 0 then [s[0]] + Name(s[1..], limit - 1) else ""
  }

  function AfterName(s: string, limit: nat): (r: string)
    ensures |r| == |s| - |Name(s, limit)|
  {
    if s != "" && IsIdent(s[0]) && limit > 0 then AfterName(s[1..], limit - 1) else s
  }

  /** Exactly k characters are read when they are those of an identifier and nothing lets it go on. */
  lemma {:induction false} NameEnd(s: string, k: nat, limit: nat)
    requires k <= limit && k <= |s| && forall i :: 0 <= i < k ==> IsIdent(s[i])
    requires k == limit || k == |s| || !IsIdent(s[k])
    ensures Name(s, limit) == s[..k] && AfterName(s, limit) == s[k..]
  {
    if k > 0 {
      NameEnd(s[1..], k - 1, limit - 1);
      assert s[..k] == [s[0]] + s[1..][..k - 1];
    }
  }

  lemma NameStarts(s: string)
    requires s != "" && IsIdentStart(s[0])
    ensures Name(s, NAME_MAX) != "" && Name(s, NAME_MAX)[0] == s[0]
  {
  }

  /** The text with each name replaced by the number it stands for. */
  function Expand(s: string, env: Env): string
    decreases |s|
  {
    if s == "" then ""
    else if IsIdentStart(s[0]) then
      NameStarts(s);
      NumberText(Value(Name(s, NAME_MAX), env)) + Expand(AfterName(s, NAME_MAX), env)
    else [s[0]] + Expand(s[1..], env)
  }

  lemma NameOf(n: string, rest: string, limit: nat)
    requires (forall i :: 0 <= i < |n| ==> IsIdent(n[i])) && |n| <= limit && Apart(rest)
    ensures Name(n + rest, limit) == n && AfterName(n + rest, limit) == rest
  {
    NameEnd(n + rest, |n|, limit);
    assert (n + rest)[..|n|] == n && (n + rest)[|n|..] == rest;
  }

  /** A letter of the alphabet in either case, or an underscore. */
  predicate Letter(c: char) {
    c in "abcdefghijklmnopqrstuvwxyz" || c in "ABCDEFGHIJKLMNOPQRSTUVWXYZ" || c == '_'
  }

  /** Names are made of these and of digits, and nothing else. */
  lemma NameCharacters(c: char)
    ensures IsIdentStart(c) <==> Letter(c)
    ensures IsIdent(c) <==> Letter(c) || c in "0123456789"
  {
  }

  /** What follows does not run on from a name. */
  predicate Apart(rest: string) {
    rest == "" || !IsIdent(rest[0])
  }

  predicate Plain(s: string) {
    forall i :: 0 <= i < |s| ==> !IsIdentStart(s[i])
  }

  lemma {:induction false} ExpandPlain(x: string, rest: string, env: Env)
    requires Plain(x)
    ensures Expand(x + rest, env) == x + Expand(rest, env)
  {
    if x == "" {
      assert x + rest == rest;
    } else {
      ExpandPlain(x[1..], rest, env);
      assert (x + rest)[1..] == x[1..] + rest;
      assert x == [x[0]] + x[1..];
    }
  }

  lemma ExpandName(n: string, rest: string, env: Env)
    requires Identifier(n) && |n| <= NAME_MAX && Apart(rest)
    ensures Expand(n + rest, env) == NumberText(Value(n, env)) + Expand(rest, env)
  {
    NameOf(n, rest, NAME_MAX);
  }

  // ---- the tree with numbers for variables ----

  function SubstF(f: Factor, env: Env): Factor {
    match f
    case Num(ws, d) => f
    case Var(ws, n) => NumberTree(ws, Value(n, env))
    case Neg(ws, g) => Neg(ws, SubstF(g, env))
    case Pos(ws, g) => Pos(ws, SubstF(g, env))
    case Paren(ws, e, ws2) => Paren(ws, SubstE(e, env), ws2)
  }

  function SubstP(p: Power, env: Env): Power {
    match p
    case Base(f) => Base(SubstF(f, env))
    case Pow(f, ws, e) => Pow(SubstF(f, env), ws, SubstP(e, env))
  }

  function SubstT(t: Term, env: Env): Term {
    match t
    case One(p) => One(SubstP(p, env))
    case Mul(u, ws, p) => Mul(SubstT(u, env), ws, SubstP(p, env))
    case Div(u, ws, p) => Div(SubstT(u, env), ws, SubstP(p, env))
  }

  function SubstE(e: Expr, env: Env): Expr {
    match e
    case Single(t) => Single(SubstT(t, env))
    case Add(d, ws, t) => Add(SubstE(d, env), ws, SubstT(t, env))
    case Sub(d, ws, t) => Sub(SubstE(d, env), ws, SubstT(t, env))
  }

  lemma SubstMeansVar(ws: string, n: string, env: Env)
    requires Blank(ws)
    ensures WfF(SubstF(Var(ws, n), env), 0) && EvalF(SubstF(Var(ws, n), env), map[]) == Some(Value(n, env))
  {
    ValueFactor(ws, Value(n, env));
  }

  /** A number as one factor: its digits, behind a minus sign if it is negative. */
  function NumberTree(ws: string, v: int): Factor {
    if v < 0 then Neg(ws, Num("", NatText(-v))) else Num(ws, NatText(v))
  }

  lemma ValueFactor(ws: string, v: int)
    requires Blank(ws)
    ensures WfF(NumberTree(ws, v), 0) && EvalF(NumberTree(ws, v), map[]) == Some(v)
  {
    if v < 0 {
      NumberFactor("", -v);
      NegatedFactor(ws, Num("", NatText(-v)), -v);
    } else {
      NumberFactor(ws, v);
    }
  }

  lemma NegatedFactor(ws: string, f: Factor, k: int)
    requires Blank(ws) && WfF(f, 0) && EvalF(f, map[]) == Some(k)
    ensures WfF(Neg(ws, f), 0) && EvalF(Neg(ws, f), map[]) == Some(-k)
  {
  }

  lemma NumberFactor(ws: string, k: nat)
    requires Blank(ws)
    ensures var f := Num(ws, NatText(k)); WfF(f, 0) && EvalF(f, map[]) == Some(k)
  {
    DecimalOfText(k);
  }

  /** A negative value stays one factor, so it keeps its value under ^ and after a minus sign. */
  lemma {:induction false} SubstMeansF(f: Factor, env: Env)
    requires WfF(f, NAME_MAX)
    ensures WfF(SubstF(f, env), 0) && EvalF(SubstF(f, env), map[]) == EvalF(f, env)
    decreases f
  {
    match f
    case Num(ws, d) =>
    case Var(ws, n) => SubstMeansVar(ws, n, env);
    case Neg(ws, g) => SubstMeansF(g, env);
    case Pos(ws, g) => SubstMeansF(g, env);
    case Paren(ws, e, ws2) => SubstMeansE(e, env);
  }

  lemma {:induction false} SubstMeansP(p: Power, env: Env)
    requires WfP(p, NAME_MAX)
    ensures WfP(SubstP(p, env), 0) && EvalP(SubstP(p, env), map[]) == EvalP(p, env)
    decreases p
  {
    match p
    case Base(f) => SubstMeansF(f, env);
    case Pow(f, ws, e) => SubstMeansF(f, env); SubstMeansP(e, env);
  }

  lemma {:induction false} SubstMeansT(t: Term, env: Env)
    requires WfT(t, NAME_MAX)
    ensures WfT(SubstT(t, env), 0) && EvalT(SubstT(t, env), map[]) == EvalT(t, env)
    decreases t
  {
    match t
    case One(p) => SubstMeansP(p, env);
    case Mul(u, ws, p) => SubstMeansT(u, env); SubstMeansP(p, env);
    case Div(u, ws, p) => SubstMeansT(u, env); SubstMeansP(p, env);
  }

  lemma {:induction false} SubstMeansE(e: Expr, env: Env)
    requires WfE(e, NAME_MAX)
    ensures WfE(SubstE(e, env), 0) && EvalE(SubstE(e, env), map[]) == EvalE(e, env)
    decreases e
  {
    match e
    case Single(t) => SubstMeansT(t, env);
    case Add(d, ws, t) => SubstMeansE(d, env); SubstMeansT(t, env);
    case Sub(d, ws, t) => SubstMeansE(d, env); SubstMeansT(t, env);
  }

  // ---- expanding the text is printing the substituted tree ----

  lemma Operator(a: string, ws: string, c: char, x: string, rest: string, env: Env, a': string, x': string)
    requires Blank(ws) && !IsIdent(c)
    requires Expand(a + (ws + ([c] + (x + rest))), env) == a' + Expand(ws + ([c] + (x + rest)), env)
    requires Expand(x + rest, env) == x' + Expand(rest, env)
    ensures Expand((a + (ws + [c] + x)) + rest, env) == (a' + (ws + [c] + x')) + Expand(rest, env)
  {
    Regroup(a, ws, c, x, rest);
    ExpandOp(ws, c, x + rest, env);
    Regroup(a', ws, c, x', Expand(rest, env));
  }

  lemma ExpandOp(ws: string, c: char, y: string, env: Env)
    requires Blank(ws) && !IsIdent(c)
    ensures Expand(ws + ([c] + y), env) == ws + ([c] + Expand(y, env))
  {
    ExpandPlain(ws, [c] + y, env);
    ExpandPlain([c], y, env);
  }

  lemma OpApart(ws: string, c: char, x: string)
    requires Blank(ws) && !IsIdent(c)
    ensures Apart(ws + ([c] + x))
  {
  }

  lemma {:induction false} ExpandF(f: Factor, rest: string, env: Env)
    requires WfF(f, NAME_MAX) && Apart(rest)
    ensures Expand(TextF(f) + rest, env) == TextF(SubstF(f, env)) + Expand(rest, env)
    decreases f
  {
    match f
    case Num(ws, d) =>
      ExpandPlain(ws + d, rest, env);
    case Var(ws, n) =>
      ExpandVar(ws, n, rest, env);
    case Neg(ws, g) =>
      ExpandF(g, rest, env);
      ExpandSign(ws, '-', TextF(g), rest, env, TextF(SubstF(g, env)));
    case Pos(ws, g) =>
      ExpandF(g, rest, env);
      ExpandSign(ws, '+', TextF(g), rest, env, TextF(SubstF(g, env)));
    case Paren(ws, e, ws2) =>
      OpApart(ws2, ')', rest);
      ExpandE(e, ws2 + ([')'] + rest), env);
      ExpandParen(ws, TextE(e), ws2, rest, env, TextE(SubstE(e, env)));
  }

  lemma ExpandVar(ws: string, n: string, rest: string, env: Env)
    requires Blank(ws) && Identifier(n) && |n| <= NAME_MAX && Apart(rest)
    ensures Expand((ws + n) + rest, env) == TextF(SubstF(Var(ws, n), env)) + Expand(rest, env)
  {
    var v := Value(n, env);
    Glue(ws, n, rest);
    ExpandPlain(ws, n + rest, env);
    ExpandName(n, rest, env);
    Glue(ws, NumberText(v), Expand(rest, env));
    TextVar(ws, n, env);
  }

  lemma Glue(a: string, b: string, c: string)
    ensures (a + b) + c == a + (b + c)
  {
  }

  lemma TextVar(ws: string, n: string, env: Env)
    ensures TextF(SubstF(Var(ws, n), env)) == ws + NumberText(Value(n, env))
  {
    var v := Value(n, env);
    if v < 0 {
      var d := NatText(-v);
      assert TextF(Num("", d)) == d;
      assert TextF(Neg(ws, Num("", d))) == ws + "-" + d;
      Glue(ws, "-", d);
    }
  }

  lemma ExpandSign(ws: string, c: char, x: string, rest: string, env: Env, x': string)
    requires Blank(ws) && !IsIdent(c) && Expand(x + rest, env) == x' + Expand(rest, env)
    ensures Expand((ws + [c] + x) + rest, env) == (ws + [c] + x') + Expand(rest, env)
  {
    Regroup("", ws, c, x, rest);
    ExpandOp(ws, c, x + rest, env);
    Regroup("", ws, c, x', Expand(rest, env));
  }

  lemma ExpandParen(ws: string, x: string, ws2: string, rest: string, env: Env, x': string)
    requires Blank(ws) && Blank(ws2)
    requires Expand(x + (ws2 + ([')'] + rest)), env) == x' + Expand(ws2 + ([')'] + rest), env)
    ensures Expand((ws + "(" + x + ws2 + ")") + rest, env) == (ws + "(" + x' + ws2 + ")") + Expand(rest, env)
  {
    RegroupParen(ws, x, ws2, rest);
    ExpandOp(ws, '(', x + (ws2 + ([')'] + rest)), env);
    ExpandOp(ws2, ')', rest, env);
    RegroupParen(ws, x', ws2, Expand(rest, env));
  }

  lemma {:induction false} ExpandP(p: Power, rest: string, env: Env)
    requires WfP(p, NAME_MAX) && Apart(rest)
    ensures Expand(TextP(p) + rest, env) == TextP(SubstP(p, env)) + Expand(rest, env)
    decreases p
  {
    match p
    case Base(f) =>
      ExpandF(f, rest, env);
    case Pow(f, ws, e) =>
      OpApart(ws, '^', TextP(e) + rest);
      ExpandF(f, ws + (['^'] + (TextP(e) + rest)), env);
      ExpandP(e, rest, env);
      Operator(TextF(f), ws, '^', TextP(e), rest, env, TextF(SubstF(f, env)), TextP(SubstP(e, env)));
  }

  lemma {:induction false} ExpandT(t: Term, rest: string, env: Env)
    requires WfT(t, NAME_MAX) && Apart(rest)
    ensures Expand(TextT(t) + rest, env) == TextT(SubstT(t, env)) + Expand(rest, env)
    decreases t
  {
    match t
    case One(p) =>
      ExpandP(p, rest, env);
    case Mul(u, ws, p) =>
      OpApart(ws, '*', TextP(p) + rest);
      ExpandT(u, ws + (['*'] + (TextP(p) + rest)), env);
      ExpandP(p, rest, env);
      Operator(TextT(u), ws, '*', TextP(p), rest, env, TextT(SubstT(u, env)), TextP(SubstP(p, env)));
    case Div(u, ws, p) =>
      OpApart(ws, '/', TextP(p) + rest);
      ExpandT(u, ws + (['/'] + (TextP(p) + rest)), env);
      ExpandP(p, rest, env);
      Operator(TextT(u), ws, '/', TextP(p), rest, env, TextT(SubstT(u, env)), TextP(SubstP(p, env)));
  }

  lemma {:induction false} ExpandE(e: Expr, rest: string, env: Env)
    requires WfE(e, NAME_MAX) && Apart(rest)
    ensures Expand(TextE(e) + rest, env) == TextE(SubstE(e, env)) + Expand(rest, env)
    decreases e
  {
    match e
    case Single(t) =>
      ExpandT(t, rest, env);
    case Add(d, ws, t) =>
      OpApart(ws, '+', TextT(t) + rest);
      ExpandE(d, ws + (['+'] + (TextT(t) + rest)), env);
      ExpandT(t, rest, env);
      Operator(TextE(d), ws, '+', TextT(t), rest, env, TextE(SubstE(d, env)), TextT(SubstT(t, env)));
    case Sub(d, ws, t) =>
      OpApart(ws, '-', TextT(t) + rest);
      ExpandE(d, ws + (['-'] + (TextT(t) + rest)), env);
      ExpandT(t, rest, env);
      Operator(TextE(d), ws, '-', TextT(t), rest, env, TextE(SubstE(d, env)), TextT(SubstT(t, env)));
  }
}
