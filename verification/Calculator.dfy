/** The recursive-descent calculator: a parser object whose position and error flag every routine moves. */
module Calculator {
  import opened Grammar
  import opened GrammarComplete

  const NO_VARS: Env := map[]

  // ---- integer powers ----

  lemma {:induction false} RaiseSquare(b: int, e: nat)
    ensures Raise(b * b, e) == Raise(b, 2 * e)
  {
    if e > 0 {
      RaiseSquare(b, e - 1);
      assert Raise(b, 2 * e) == b * (b * Raise(b, 2 * e - 2));
      assert b * (b * Raise(b, 2 * e - 2)) == (b * b) * Raise(b, 2 * e - 2);
    }
  }

  /** ipow: repeated squaring, refusing a negative exponent. */
  method Ipow(base: int, exp: int) returns (r: int, error: bool)
    ensures error <==> exp < 0
    ensures exp >= 0 ==> r == Raise(base, exp)
  {
    if exp < 0 {
      return 0, true;
    }
    r, error := 1, false;
    var b, e := base, exp;
    while e > 0
      invariant e >= 0 && !error
      invariant r * Raise(b, e) == Raise(base, exp)
    {
      RaiseSquare(b, e / 2);
      ghost var r0, half := r, Raise(b, 2 * (e / 2));
      if e % 2 == 1 {
        assert Raise(b, e) == b * half;
        assert r0 * (b * half) == (r0 * b) * half;
        r := r * b;
      }
      b, e := b * b, e / 2;
    }
  }

  // ---- what a routine has done with the text s in front of it ----

  // Each predicate reads: an error was raised exactly when s has no such phrase or the phrase has no
  // value; otherwise v is the value, and `left` the text then in front of the parser.

  ghost predicate GoodF(o: Option<(Factor, string)>) {
    o.Some? && EvalF(o.value.0, NO_VARS).Some?
  }

  ghost predicate GoodP(o: Option<(Power, string)>) {
    o.Some? && EvalP(o.value.0, NO_VARS).Some?
  }

  ghost predicate GoodT(o: Option<(Term, string)>) {
    o.Some? && EvalT(o.value.0, NO_VARS).Some?
  }

  ghost predicate GoodE(o: Option<(Expr, string)>) {
    o.Some? && EvalE(o.value.0, NO_VARS).Some?
  }

  ghost predicate ReadsF(o: Option<(Factor, string)>, error: bool, v: int, left: string) {
    (error <==> !GoodF(o)) && (!error ==> EvalF(o.value.0, NO_VARS) == Some(v) && left == o.value.1)
  }

  ghost predicate ReadF(s: string, error: bool, v: int, left: string) {
    ReadsF(ParseF(s), error, v, left)
  }

  // The routines above factors also skip the blanks after their phrase.
  ghost predicate ReadP(s: string, error: bool, v: int, left: string) {
    var o := ParseP(s);
    (error <==> !GoodP(o)) && (!error ==> EvalP(o.value.0, NO_VARS) == Some(v) && left == Skip(o.value.1))
  }

  ghost predicate ReadT(s: string, error: bool, v: int, left: string) {
    var o := ParseT(s);
    (error <==> !GoodT(o)) && (!error ==> EvalT(o.value.0, NO_VARS) == Some(v) && left == Skip(o.value.1))
  }

  ghost predicate ReadE(s: string, error: bool, v: int, left: string) {
    var o := ParseE(s);
    (error <==> !GoodE(o)) && (!error ==> EvalE(o.value.0, NO_VARS) == Some(v) && left == Skip(o.value.1))
  }

  lemma ReadSign(s: string, error: bool, v: int, left: string)
    requires StartsWith(Skip(s), '-') || StartsWith(Skip(s), '+')
    requires ReadF(Skip(s)[1..], error, v, left)
    ensures ReadF(s, error, if Skip(s)[0] == '-' then -v else v, left)
  {
    ParseSign(s);
    SignReads(ParseF(Skip(s)[1..]), Blanks(s), Skip(s)[0] == '-', error, v, left);
  }

  /** A factor with a sign put before it. */
  function WithSign(o: Option<(Factor, string)>, ws: string, minus: bool): Option<(Factor, string)> {
    if o.None? then None else Some((if minus then Neg(ws, o.value.0) else Pos(ws, o.value.0), o.value.1))
  }

  lemma ParseSign(s: string)
    requires StartsWith(Skip(s), '-') || StartsWith(Skip(s), '+')
    ensures ParseF(s) == WithSign(ParseF(Skip(s)[1..]), Blanks(s), Skip(s)[0] == '-')
  {
  }

  lemma SignReads(o: Option<(Factor, string)>, ws: string, minus: bool, error: bool, v: int, left: string)
    requires ReadsF(o, error, v, left)
    ensures ReadsF(WithSign(o, ws, minus), error, if minus then -v else v, left)
  {
  }

  lemma ReadParen(s: string, error: bool, v: int, left: string, v': int, left': string)
    requires StartsWith(Skip(s), '(')
    requires ReadE(Skip(s)[1..], error, v, left)
    ensures error || !StartsWith(left, ')') ==> ReadF(s, true, v', left')
    ensures !error && StartsWith(left, ')') ==> ReadF(s, false, v, left[1..])
  {
    var o := ParseE(Skip(s)[1..]);
    var r := ParseF(s);
    assert r == if o.None? || !StartsWith(Skip(o.value.1), ')') then None
                else Some((Paren(Blanks(s), o.value.0, Blanks(o.value.1)), Skip(o.value.1)[1..]));
  }

  lemma ReadNumber(s: string, v: int, left: string)
    requires !StartsWith(Skip(s), '-') && !StartsWith(Skip(s), '+') && !StartsWith(Skip(s), '(')
    ensures LeadingDigits(Skip(s)) == "" ==> ReadF(s, true, v, left)
    ensures var d := LeadingDigits(Skip(s)); d != "" ==> ReadF(s, false, Decimal(d), Skip(s)[|d|..])
  {
  }

  lemma ReadPower(s: string, error: bool, b: int, rest: string, error': bool, x: int, left: string, v: int, v': int)
    requires ReadF(s, error, b, rest)
    requires !error && StartsWith(Skip(rest), '^') ==> ReadP(Skip(rest)[1..], error', x, left)
    requires !error && StartsWith(Skip(rest), '^') && !error' && x >= 0 ==> v == Raise(b, x)
    ensures error ==> ReadP(s, true, v', left)
    ensures !error && StartsWith(Skip(rest), '^') ==> ReadP(s, error' || x < 0, v, left)
    ensures !error && !StartsWith(Skip(rest), '^') ==> ReadP(s, false, b, Skip(rest))
  {
  }

  // ---- in the middle of a chain: t is read, worth v, and `rest` is still to read ----

  ghost predicate MidT(s: string, error: bool, t: Term, v: int, rest: string) {
    if error then !GoodT(ParseT(s)) else ParseT(s) == TailT(t, rest) && EvalT(t, NO_VARS) == Some(v)
  }

  ghost predicate MidE(s: string, error: bool, e: Expr, v: int, rest: string) {
    if error then !GoodE(ParseE(s)) else ParseE(s) == TailE(e, rest) && EvalE(e, NO_VARS) == Some(v)
  }

  ghost predicate EndedT(left: string) {
    !StartsWith(left, '*') && !StartsWith(left, '/')
  }

  ghost predicate EndedE(left: string) {
    !StartsWith(left, '+') && !StartsWith(left, '-')
  }

  /** What has no value gets none by going on. */
  lemma {:induction false} BadTailT(t: Term, s: string)
    requires EvalT(t, NO_VARS).None?
    ensures !GoodT(TailT(t, s))
    decreases |s|
  {
    var ws, r := Blanks(s), Skip(s);
    if StartsWith(r, '*') || StartsWith(r, '/') {
      match ParseP(r[1..])
      case None =>
      case Some((p, rest)) =>
        BadTailT(if r[0] == '*' then Mul(t, ws, p) else Div(t, ws, p), rest);
    }
  }

  lemma {:induction false} BadTailE(e: Expr, s: string)
    requires EvalE(e, NO_VARS).None?
    ensures !GoodE(TailE(e, s))
    decreases |s|
  {
    var ws, r := Blanks(s), Skip(s);
    if StartsWith(r, '+') || StartsWith(r, '-') {
      match ParseT(r[1..])
      case None =>
      case Some((t, rest)) =>
        BadTailE(if r[0] == '+' then Add(e, ws, t) else Sub(e, ws, t), rest);
    }
  }

  lemma FirstT(s: string, error: bool, v: int, left: string) returns (t: Term, rest: string)
    requires ReadP(s, error, v, left)
    ensures MidT(s, error, t, v, rest) && (!error ==> left == Skip(rest))
  {
    match ParseP(s)
    case None =>
      t, rest := One(Base(Num("", ""))), "";
    case Some((p, r)) =>
      t, rest := One(p), r;
      if error {
        BadTailT(t, rest);
      }
  }

  lemma FirstE(s: string, error: bool, v: int, left: string) returns (e: Expr, rest: string)
    requires ReadT(s, error, v, left)
    ensures MidE(s, error, e, v, rest) && (!error ==> left == Skip(rest))
  {
    match ParseT(s)
    case None =>
      e, rest := Single(One(Base(Num("", "")))), "";
    case Some((t, r)) =>
      e, rest := Single(t), r;
      if error {
        BadTailE(e, rest);
      }
  }

  lemma NextT(s: string, t: Term, a: int, rest: string, error: bool, b: int, left: string)
    returns (t': Term, rest': string)
    requires MidT(s, false, t, a, rest) && (StartsWith(Skip(rest), '*') || StartsWith(Skip(rest), '/'))
    requires ReadP(Skip(rest)[1..], error, b, left)
    ensures !error && Skip(rest)[0] == '*' ==> MidT(s, false, t', a * b, rest') && left == Skip(rest')
    ensures !error && Skip(rest)[0] == '/' && b != 0 ==>
              MidT(s, false, t', Quotient(a, b), rest') && left == Skip(rest')
    ensures forall v :: error || (Skip(rest)[0] == '/' && b == 0) ==> MidT(s, true, t', v, rest')
  {
    t', rest' := t, rest;
    match ParseP(Skip(rest)[1..])
    case None =>
    case Some((p, r)) =>
      t', rest' := if Skip(rest)[0] == '*' then Mul(t, Blanks(rest), p) else Div(t, Blanks(rest), p), r;
      if EvalT(t', NO_VARS).None? {
        BadTailT(t', rest');
      }
  }

  lemma NextE(s: string, e: Expr, a: int, rest: string, error: bool, b: int, left: string)
    returns (e': Expr, rest': string)
    requires MidE(s, false, e, a, rest) && (StartsWith(Skip(rest), '+') || StartsWith(Skip(rest), '-'))
    requires ReadT(Skip(rest)[1..], error, b, left)
    ensures MidE(s, error, e', if Skip(rest)[0] == '+' then a + b else a - b, rest')
    ensures !error ==> left == Skip(rest')
  {
    e', rest' := e, rest;
    match ParseT(Skip(rest)[1..])
    case None =>
    case Some((t, r)) =>
      e', rest' := if Skip(rest)[0] == '+' then Add(e, Blanks(rest), t) else Sub(e, Blanks(rest), t), r;
      if EvalE(e', NO_VARS).None? {
        BadTailE(e', rest');
      }
  }

  lemma LastT(s: string, error: bool, t: Term, v: int, rest: string, left: string)
    requires MidT(s, error, t, v, rest)
    requires !error ==> left == Skip(rest) && EndedT(left)
    ensures ReadT(s, error, v, left)
  {
  }

  lemma LastE(s: string, error: bool, e: Expr, v: int, rest: string, left: string)
    requires MidE(s, error, e, v, rest)
    requires !error ==> left == Skip(rest) && EndedE(left)
    ensures ReadE(s, error, v, left)
  {
  }

  lemma SkipTwice(s: string)
    ensures Skip(Skip(s)) == Skip(s)
  {
    assert Blanks(Skip(s)) == "";
  }

  lemma DigitsEnd(s: string, k: nat)
    requires k <= |s| && Digits(s[..k]) && (k == |s| || !IsDigit(s[k]))
    ensures LeadingDigits(s) == s[..k]
  {
    DigitsOf(s[..k], s[k..]);
    assert s == s[..k] + s[k..];
  }

  class Parser {
    const text: string
    var p: nat
    var error: bool

    constructor (s: string)
      ensures text == s && p == 0 && !error
    {
      text, p, error := s, 0, false;
    }

    predicate At(c: char)
      reads this
    {
      p < |text| && text[p] == c
    }

    ghost function Left(): (s: string)
      requires p <= |text|
      reads this
    {
      text[p..]
    }

    method SkipSpaces()
      requires p <= |text|
      modifies this`p
      ensures old(p) <= p <= |text| && Left() == Skip(old(Left()))
    {
      while p < |text| && (text[p] == ' ' || text[p] == '\t')
        invariant old(p) <= p <= |text|
        invariant Skip(text[old(p)..]) == Skip(text[p..])
      {
        assert text[p..][1..] == text[p + 1..];
        p := p + 1;
      }
    }

    method Number() returns (v: int)
      requires p <= |text|
      modifies this`p
      ensures old(p) <= p <= |text|
      ensures var d := LeadingDigits(old(Left())); v == Decimal(d) && Left() == old(Left())[|d|..]
    {
      v := 0;
      ghost var s := Left();
      while p < |text| && '0' <= text[p] <= '9'
        invariant old(p) <= p <= |text|
        invariant forall i :: old(p) <= i < p ==> IsDigit(text[i])
        invariant v == Decimal(text[old(p)..p])
      {
        assert text[old(p)..p + 1][..p - old(p)] == text[old(p)..p];
        v := v * 10 + (text[p] as int - '0' as int);
        p := p + 1;
      }
      assert text[old(p)..p] == s[..p - old(p)];
      DigitsEnd(s, p - old(p));
    }

    /** One operator or bracket is taken. */
    method Take()
      requires p < |text|
      modifies this`p
      ensures p == old(p) + 1 && Left() == old(Left())[1..]
    {
      p := p + 1;
    }

    method ParseFactor() returns (v: int)
      requires p <= |text|
      modifies this`p, this`error
      ensures old(p) <= p <= |text| && (old(error) ==> error)
      ensures !old(error) ==> ReadF(old(Left()), error, v, Left())
      decreases |text| - p, 1
    {
      ghost var s := Left();
      SkipSpaces();
      if At('-') || At('+') {
        v := Signed(s);
        return;
      }
      if At('(') {
        v := Brackets(s);
        return;
      }
      ReadNumber(s, 0, Left());
      if p == |text| || text[p] < '0' || text[p] > '9' {
        error := true;
        return 0;
      }
      v := Number();
    }

    method Signed(ghost s: string) returns (v: int)
      requires p <= |text| && (At('-') || At('+')) && Left() == Skip(s)
      modifies this`p, this`error
      ensures old(p) <= p <= |text| && (old(error) ==> error)
      ensures !old(error) ==> ReadF(s, error, v, Left())
      decreases |text| - p, 0
    {
      var minus := At('-');
      Take();
      v := ParseFactor();
      if !old(error) {
        ReadSign(s, error, v, Left());
      }
      if minus {
        v := -v;
      }
    }

    method Brackets(ghost s: string) returns (v: int)
      requires p <= |text| && At('(') && Left() == Skip(s)
      modifies this`p, this`error
      ensures old(p) <= p <= |text| && (old(error) ==> error)
      ensures !old(error) ==> ReadF(s, error, v, Left())
      decreases |text| - p, 0
    {
      Take();
      v := ParseExpr();
      ghost var left, failed, v0 := Left(), error, v;
      SkipSpaces();
      if !At(')') {
        error := true;
        v := 0;
      } else {
        Take();
      }
      if !old(error) {
        ReadParen(s, failed, v0, left, v, Left());
      }
    }

    method ParsePower() returns (v: int)
      requires p <= |text|
      modifies this`p, this`error
      ensures old(p) <= p <= |text| && (old(error) ==> error)
      ensures !old(error) ==> ReadP(old(Left()), error, v, Left())
      decreases |text| - p, 2
    {
      v := ParseFactor();
      ghost var failed, b, rest := error, v, Left();
      ghost var failed', x := false, 0;
      SkipSpaces();
      if At('^') {
        Take();
        var exp := ParsePower();
        failed', x := error, exp;
        var bad;
        v, bad := Ipow(v, exp);
        error := error || bad;
      }
      if !old(error) {
        ReadPower(old(Left()), failed, b, rest, failed', x, Left(), v, v);
      }
    }

    method ParseTerm() returns (v: int)
      requires p <= |text|
      modifies this`p, this`error
      ensures old(p) <= p <= |text| && (old(error) ==> error)
      ensures !old(error) ==> ReadT(old(Left()), error, v, Left())
      decreases |text| - p, 4
    {
      ghost var s := Left();
      ghost var t, rest := One(Base(Num("", ""))), "";
      v := ParsePower();
      if !old(error) {
        t, rest := FirstT(s, error, v, Left());
      }
      var more := true;
      while more
        invariant old(p) <= p <= |text| && (old(error) ==> error)
        invariant !old(error) ==> MidT(s, error, t, v, rest)
        invariant !old(error) && !error ==> Left() == Skip(rest) && (more || EndedT(Left()))
        decreases |text| - p, more
      {
        SkipTwice(rest);
        SkipSpaces();
        v, more, t, rest := MoreTerm(s, t, v, rest);
      }
      if !old(error) {
        LastT(s, error, t, v, rest, Left());
      }
    }

    /** One round of the chain of * and /; a zero divisor ends it with an error. */
    method MoreTerm(ghost s: string, ghost t: Term, a: int, ghost rest: string)
      returns (v: int, more: bool, ghost t': Term, ghost rest': string)
      requires p <= |text| && (!error ==> Left() == Skip(rest) && MidT(s, false, t, a, rest))
      modifies this`p, this`error
      ensures old(p) <= p <= |text| && (old(error) ==> error) && (more ==> old(p) < p)
      ensures !old(error) ==> MidT(s, error, t', v, rest')
      ensures !old(error) && !error ==> Left() == Skip(rest') && (more || EndedT(Left()))
      ensures old(error) && MidT(s, true, t, a, rest) ==> MidT(s, true, t', v, rest')
      decreases |text| - p, 3
    {
      t', rest' := t, rest;
      if At('*') {
        Take();
        var rhs := ParsePower();
        if !old(error) {
          t', rest' := NextT(s, t, a, rest, error, rhs, Left());
        }
        return a * rhs, true, t', rest';
      }
      if At('/') {
        Take();
        var rhs := ParsePower();
        if !old(error) {
          t', rest' := NextT(s, t, a, rest, error, rhs, Left());
        }
        if rhs == 0 {
          error := true;
          return 0, false, t', rest';
        }
        return Quotient(a, rhs), true, t', rest';
      }
      return a, false, t', rest';
    }

    method ParseExpr() returns (v: int)
      requires p <= |text|
      modifies this`p, this`error
      ensures old(p) <= p <= |text| && (old(error) ==> error)
      ensures !old(error) ==> ReadE(old(Left()), error, v, Left())
      decreases |text| - p, 6
    {
      ghost var s := Left();
      ghost var e, rest := Single(One(Base(Num("", "")))), "";
      v := ParseTerm();
      if !old(error) {
        e, rest := FirstE(s, error, v, Left());
      }
      var more := true;
      while more
        invariant old(p) <= p <= |text| && (old(error) ==> error)
        invariant !old(error) ==> MidE(s, error, e, v, rest)
        invariant !old(error) && !error ==> Left() == Skip(rest) && (more || EndedE(Left()))
        decreases |text| - p, more
      {
        SkipTwice(rest);
        SkipSpaces();
        v, more, e, rest := MoreExpr(s, e, v, rest);
      }
      if !old(error) {
        LastE(s, error, e, v, rest, Left());
      }
    }

    /** One round of the chain of + and -. */
    method MoreExpr(ghost s: string, ghost e: Expr, a: int, ghost rest: string)
      returns (v: int, more: bool, ghost e': Expr, ghost rest': string)
      requires p <= |text| && (!error ==> Left() == Skip(rest) && MidE(s, false, e, a, rest))
      modifies this`p, this`error
      ensures old(p) <= p <= |text| && (old(error) ==> error) && (more ==> old(p) < p)
      ensures !old(error) ==> MidE(s, error, e', v, rest')
      ensures !old(error) && !error ==> Left() == Skip(rest') && (more || EndedE(Left()))
      ensures old(error) && MidE(s, true, e, a, rest) ==> MidE(s, true, e', v, rest')
      decreases |text| - p, 5
    {
      e', rest' := e, rest;
      if At('+') || At('-') {
        var plus := At('+');
        Take();
        var rhs := ParseTerm();
        if !old(error) {
          e', rest' := NextE(s, e, a, rest, error, rhs, Left());
        }
        return if plus then a + rhs else a - rhs, true, e', rest';
      }
      return a, false, e', rest';
    }
  }

  /** The text is an expression of the grammar, and e is its tree. */
  ghost predicate Expression(s: string, e: Expr) {
    exists ws :: Derives(s, e, ws)
  }

  /** The value of the whole text, if it is an expression and has one. */
  ghost function Calc(s: string): Option<int> {
    match ParseE(s)
    case None => None
    case Some((e, ws)) => if Skip(ws) == "" then EvalE(e, NO_VARS) else None
  }

  lemma CalcMeans(s: string, v: int)
    ensures Calc(s) == Some(v) <==> exists e :: Expression(s, e) && EvalE(e, NO_VARS) == Some(v)
  {
    forall e | Expression(s, e)
      ensures Calc(s) == EvalE(e, NO_VARS)
    {
      ExpressionValue(s, e);
    }
    if Calc(s) == Some(v) {
      var (e, ws) := ParseE(s).value;
      ParseDerives(s, e, ws);
      assert Expression(s, e);
    }
  }

  lemma Verdict(s: string, failed: bool, v: int, left: string)
    requires ReadE(s, failed, v, left)
    ensures Calc(s) == if !failed && Skip(left) == "" then Some(v) else None
  {
    if !failed {
      SkipTwice(ParseE(s).value.1);
    }
  }

  /** The calculator accepts exactly the texts of the grammar that have a value, and answers that value. */
  method CalcEval(expr: string) returns (v: int, error: bool)
    ensures Calc(expr) == if error then None else Some(v)
    ensures !error <==> exists e :: Expression(expr, e) && EvalE(e, NO_VARS).Some?
    ensures !error ==> forall e :: Expression(expr, e) ==> EvalE(e, NO_VARS) == Some(v)
  {
    var pr := new Parser(expr);
    v := pr.ParseExpr();
    ghost var failed, left := pr.error, pr.Left();
    pr.SkipSpaces();
    if pr.p != |expr| {
      pr.error := true;
    }
    error := pr.error;
    assert pr.Left() == "" <==> pr.p == |expr|;
    assert expr[0..] == expr;
    Verdict(expr, failed, v, left);
    forall v' {
      CalcMeans(expr, v');
    }
    forall e | Expression(expr, e)
      ensures EvalE(e, NO_VARS) == Calc(expr)
    {
      ExpressionValue(expr, e);
    }
  }

  /** Whatever tree a text has, its value is the text's. */
  lemma ExpressionValue(s: string, e: Expr)
    requires Expression(s, e)
    ensures Calc(s) == EvalE(e, NO_VARS)
  {
    var ws :| Derives(s, e, ws);
    ParseDerives(s, e, ws);
  }
}
