/**
  The grammar of arithmetic expressions, as trees that keep every character of the text they stand
  for: what a tree prints as, what it means, and the one tree a text has.
 */
module Grammar {
  datatype Option<+T> = None | Some(value: T)

  // Unary minus binds tighter than ^, which is right-associative; the other operators associate to the left.
  datatype Factor =
    | Num(ws: string, digits: string)
    | Var(ws: string, name: string)
    | Neg(ws: string, f: Factor)
    | Pos(ws: string, f: Factor)
    | Paren(ws: string, e: Expr, ws2: string)
  datatype Power = Base(f: Factor) | Pow(f: Factor, ws: string, exp: Power)
  datatype Term = One(p: Power) | Mul(t: Term, ws: string, p: Power) | Div(t: Term, ws: string, p: Power)
  datatype Expr = Single(t: Term) | Add(e: Expr, ws: string, t: Term) | Sub(e: Expr, ws: string, t: Term)

  // ---- printing ----

  function TextF(f: Factor): string {
    match f
    case Num(ws, d) => ws + d
    case Var(ws, n) => ws + n
    case Neg(ws, g) => ws + "-" + TextF(g)
    case Pos(ws, g) => ws + "+" + TextF(g)
    case Paren(ws, e, ws2) => ws + "(" + TextE(e) + ws2 + ")"
  }

  function TextP(p: Power): string {
    match p
    case Base(f) => TextF(f)
    case Pow(f, ws, e) => TextF(f) + (ws + "^" + TextP(e))
  }

  function TextT(t: Term): string {
    match t
    case One(p) => TextP(p)
    case Mul(u, ws, p) => TextT(u) + (ws + "*" + TextP(p))
    case Div(u, ws, p) => TextT(u) + (ws + "/" + TextP(p))
  }

  function TextE(e: Expr): string {
    match e
    case Single(t) => TextT(t)
    case Add(d, ws, t) => TextE(d) + (ws + "+" + TextT(t))
    case Sub(d, ws, t) => TextE(d) + (ws + "-" + TextT(t))
  }

  // ---- which trees are proper ----

  predicate IsBlank(c: char) {
    c == ' ' || c == '\t'
  }

  predicate IsDigit(c: char) {
    '0' <= c <= '9'
  }

  predicate IsIdentStart(c: char) {
    'a' <= c <= 'z' || 'A' <= c <= 'Z' || c == '_'
  }

  predicate IsIdent(c: char) {
    IsIdentStart(c) || IsDigit(c)
  }

  predicate Blank(s: string) {
    forall i :: 0 <= i < |s| ==> IsBlank(s[i])
  }

  predicate Digits(s: string) {
    forall i :: 0 <= i < |s| ==> IsDigit(s[i])
  }

  predicate Identifier(s: string) {
    s != "" && IsIdentStart(s[0]) && forall i :: 0 <= i < |s| ==> IsIdent(s[i])
  }

  /**
    Blanks are blanks, numbers are digits, and variables occur only if allowed, with names of at most
    `limit` characters.
   */
  predicate WfF(f: Factor, limit: nat) {
    match f
    case Num(ws, d) => Blank(ws) && d != "" && Digits(d)
    case Var(ws, n) => Blank(ws) && Identifier(n) && |n| <= limit
    case Neg(ws, g) => Blank(ws) && WfF(g, limit)
    case Pos(ws, g) => Blank(ws) && WfF(g, limit)
    case Paren(ws, e, ws2) => Blank(ws) && Blank(ws2) && WfE(e, limit)
  }

  predicate WfP(p: Power, limit: nat) {
    match p
    case Base(f) => WfF(f, limit)
    case Pow(f, ws, e) => WfF(f, limit) && Blank(ws) && WfP(e, limit)
  }

  predicate WfT(t: Term, limit: nat) {
    match t
    case One(p) => WfP(p, limit)
    case Mul(u, ws, p) => WfT(u, limit) && Blank(ws) && WfP(p, limit)
    case Div(u, ws, p) => WfT(u, limit) && Blank(ws) && WfP(p, limit)
  }

  predicate WfE(e: Expr, limit: nat) {
    match e
    case Single(t) => WfT(t, limit)
    case Add(d, ws, t) => WfE(d, limit) && Blank(ws) && WfT(t, limit)
    case Sub(d, ws, t) => WfE(d, limit) && Blank(ws) && WfT(t, limit)
  }

  // ---- meaning ----

  function Decimal(d: string): int {
    if d == "" then 0 else 10 * Decimal(d[..|d| - 1]) + (d[|d| - 1] as int - '0' as int)
  }

  /** Division as C does it: toward zero. */
  function Quotient(a: int, b: int): int
    requires b != 0
  {
    if a >= 0 then a / b else -((-a) / b)
  }

  function Raise(b: int, e: nat): int {
    if e == 0 then 1 else b * Raise(b, e - 1)
  }

  type Env = map<string, int>

  /** The value under env, where an unset variable counts as 0; None on a zero divisor or a negative exponent. */
  function EvalF(f: Factor, env: Env): Option<int> {
    match f
    case Num(_, d) => Some(Decimal(d))
    case Var(_, n) => Some(if n in env then env[n] else 0)
    case Neg(_, g) => (match EvalF(g, env) case None => None case Some(v) => Some(-v))
    case Pos(_, g) => EvalF(g, env)
    case Paren(_, e, _) => EvalE(e, env)
  }

  function EvalP(p: Power, env: Env): Option<int> {
    match p
    case Base(f) => EvalF(f, env)
    case Pow(f, _, e) =>
      match (EvalF(f, env), EvalP(e, env))
      case (Some(b), Some(x)) => if x < 0 then None else Some(Raise(b, x))
      case (_, _) => None
  }

  function EvalT(t: Term, env: Env): Option<int> {
    match t
    case One(p) => EvalP(p, env)
    case Mul(u, _, p) => (
      match (EvalT(u, env), EvalP(p, env)) case (Some(a), Some(b)) => Some(a * b) case (_, _) => None)
    case Div(u, _, p) =>
      match (EvalT(u, env), EvalP(p, env))
      case (Some(a), Some(b)) => if b == 0 then None else Some(Quotient(a, b))
      case (_, _) => None
  }

  function EvalE(e: Expr, env: Env): Option<int> {
    match e
    case Single(t) => EvalT(t, env)
    case Add(d, _, t) => (
      match (EvalE(d, env), EvalT(t, env)) case (Some(a), Some(b)) => Some(a + b) case (_, _) => None)
    case Sub(d, _, t) => (
      match (EvalE(d, env), EvalT(t, env)) case (Some(a), Some(b)) => Some(a - b) case (_, _) => None)
  }

  // ---- parsing ----

  /** The leading blanks of s, and what follows them. */
  function Blanks(s: string): (ws: string)
    ensures |ws| <= |s| && Blank(ws) && (|ws| < |s| ==> !IsBlank(s[|ws|]))
  {
    if s != "" && IsBlank(s[0]) then [s[0]] + Blanks(s[1..]) else ""
  }

  function Skip(s: string): (r: string)
    ensures |r| <= |s| && (r != "" ==> !IsBlank(r[0]))
  {
    if s != "" && IsBlank(s[0]) then Skip(s[1..]) else s
  }

  lemma {:induction false} SkipSplits(s: string)
    ensures s == Blanks(s) + Skip(s)
  {
    if s != "" && IsBlank(s[0]) {
      SkipSplits(s[1..]);
      assert s == [s[0]] + s[1..];
    }
  }

  function LeadingDigits(s: string): (d: string)
    ensures |d| <= |s| && Digits(d) && (|d| < |s| ==> !IsDigit(s[|d|]))
  {
    if s != "" && IsDigit(s[0]) then [s[0]] + LeadingDigits(s[1..]) else ""
  }

  lemma {:induction false} DigitsSplit(s: string)
    ensures s == LeadingDigits(s) + s[|LeadingDigits(s)|..]
  {
    if s != "" && IsDigit(s[0]) {
      DigitsSplit(s[1..]);
      assert s == [s[0]] + s[1..];
    }
  }

  predicate StartsWith(s: string, c: char) {
    s != "" && s[0] == c
  }

  lemma Regroup(a: string, ws: string, c: char, x: string, rest: string)
    ensures (a + (ws + [c] + x)) + rest == a + (ws + ([c] + (x + rest)))
    ensures (ws + [c] + x) + rest == ws + ([c] + (x + rest))
  {
  }

  lemma RegroupParen(ws: string, x: string, ws2: string, rest: string)
    ensures (ws + "(" + x + ws2 + ")") + rest == ws + (['('] + (x + (ws2 + ([')'] + rest))))
  {
  }

  lemma HeadTail(s: string)
    requires s != ""
    ensures s == [s[0]] + s[1..]
  {
  }

  lemma ParenText(s: string, e: Expr, rest: string)
    requires StartsWith(Skip(s), '(') && Skip(s)[1..] == TextE(e) + rest && StartsWith(Skip(rest), ')')
    ensures s == TextF(Paren(Blanks(s), e, Blanks(rest))) + Skip(rest)[1..]
  {
    SkipSplits(s);
    HeadTail(Skip(s));
    SkipSplits(rest);
    HeadTail(Skip(rest));
    RegroupParen(Blanks(s), TextE(e), Blanks(rest), Skip(rest)[1..]);
  }

  /** Each parser gives the tree it reads off the front of s, and the rest of s. */
  function ParseF(s: string): (r: Option<(Factor, string)>)
    ensures r.Some? ==> WfF(r.value.0, 0) && s == TextF(r.value.0) + r.value.1 && |r.value.1| < |s|
    decreases |s|, 0
  {
    var ws, r := Blanks(s), Skip(s);
    SkipSplits(s);
    if StartsWith(r, '-') then
      match ParseF(r[1..])
      case None => None
      case Some((f, rest)) =>
        HeadTail(r);
        Regroup("", ws, '-', TextF(f), rest);
        Some((Neg(ws, f), rest))
    else if StartsWith(r, '+') then
      match ParseF(r[1..])
      case None => None
      case Some((f, rest)) =>
        HeadTail(r);
        Regroup("", ws, '+', TextF(f), rest);
        Some((Pos(ws, f), rest))
    else if StartsWith(r, '(') then
      match ParseE(r[1..])
      case None => None
      case Some((e, rest)) =>
        if StartsWith(Skip(rest), ')') then
          ParenText(s, e, rest);
          Some((Paren(ws, e, Blanks(rest)), Skip(rest)[1..]))
        else None
    else
      var d := LeadingDigits(r);
      DigitsSplit(r);
      if d == "" then None else Some((Num(ws, d), r[|d|..]))
  }

  function ParseP(s: string): (r: Option<(Power, string)>)
    ensures r.Some? ==> WfP(r.value.0, 0) && s == TextP(r.value.0) + r.value.1 && |r.value.1| < |s|
    decreases |s|, 1
  {
    match ParseF(s)
    case None => None
    case Some((f, rest)) =>
      if StartsWith(Skip(rest), '^') then
        match ParseP(Skip(rest)[1..])
        case None => None
        case Some((e, rest')) =>
          SkipSplits(rest);
          HeadTail(Skip(rest));
          Regroup(TextF(f), Blanks(rest), '^', TextP(e), rest');
          Some((Pow(f, Blanks(rest), e), rest'))
      else Some((Base(f), rest))
  }

  function ParseT(s: string): (r: Option<(Term, string)>)
    ensures r.Some? ==> WfT(r.value.0, 0) && s == TextT(r.value.0) + r.value.1 && |r.value.1| < |s|
    decreases |s|, 3
  {
    match ParseP(s)
    case None => None
    case Some((p, rest)) => TailT(One(p), rest)
  }

  /** The rest of a term, after t has been read. */
  function TailT(t: Term, s: string): (r: Option<(Term, string)>)
    ensures r.Some? ==> (WfT(t, 0) ==> WfT(r.value.0, 0)) && |r.value.1| <= |s|
    ensures r.Some? ==> TextT(t) + s == TextT(r.value.0) + r.value.1
    decreases |s|, 2
  {
    var ws, r := Blanks(s), Skip(s);
    SkipSplits(s);
    if StartsWith(r, '*') || StartsWith(r, '/') then
      match ParseP(r[1..])
      case None => None
      case Some((p, rest)) =>
        HeadTail(r);
        Regroup(TextT(t), ws, r[0], TextP(p), rest);
        TailT(if r[0] == '*' then Mul(t, ws, p) else Div(t, ws, p), rest)
    else Some((t, s))
  }

  function ParseE(s: string): (r: Option<(Expr, string)>)
    ensures r.Some? ==> WfE(r.value.0, 0) && s == TextE(r.value.0) + r.value.1 && |r.value.1| < |s|
    decreases |s|, 5
  {
    match ParseT(s)
    case None => None
    case Some((t, rest)) => TailE(Single(t), rest)
  }

  function TailE(e: Expr, s: string): (r: Option<(Expr, string)>)
    ensures r.Some? ==> (WfE(e, 0) ==> WfE(r.value.0, 0)) && |r.value.1| <= |s|
    ensures r.Some? ==> TextE(e) + s == TextE(r.value.0) + r.value.1
    decreases |s|, 4
  {
    var ws, r := Blanks(s), Skip(s);
    SkipSplits(s);
    if StartsWith(r, '+') || StartsWith(r, '-') then
      match ParseT(r[1..])
      case None => None
      case Some((t, rest)) =>
        HeadTail(r);
        Regroup(TextE(e), ws, r[0], TextT(t), rest);
        TailE(if r[0] == '+' then Add(e, ws, t) else Sub(e, ws, t), rest)
    else Some((e, s))
  }
}
