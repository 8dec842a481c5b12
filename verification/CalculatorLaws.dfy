/** The calculator's answers for written-out expressions: each operator, its precedence and its grouping. */
module CalculatorLaws {
  import opened Grammar
  import opened GrammarComplete
  import opened Calculator

  // ---- arithmetic ----

  /** The quotient is the one toward zero: what is left over is smaller than b and has the sign of a. */
  lemma QuotientIs(a: int, b: int)
    requires b != 0
    ensures var q := Quotient(a, b);
            var r := a - q * b;
            && (if b > 0 then -b < r < b else b < r < -b)
            && (a >= 0 ==> r >= 0) && (a <= 0 ==> r <= 0)
  {
    if a >= 0 {
      assert a == a / b * b + a % b;
    } else {
      assert -a == (-a) / b * b + (-a) % b;
      assert (-((-a) / b)) * b == -((-a) / b * b);
    }
  }

  /** Powers add up. */
  lemma {:induction false} RaiseAdds(b: int, m: nat, n: nat)
    ensures Raise(b, m + n) == Raise(b, m) * Raise(b, n)
    ensures Raise(b, 0) == 1 && Raise(b, 1) == b
    decreases m
  {
    if m > 0 {
      RaiseAdds(b, m - 1, n);
      Grouped(b, Raise(b, m - 1), Raise(b, n));
    }
  }

  lemma Grouped(a: int, b: int, c: int)
    ensures a * (b * c) == (a * b) * c
  {
  }

  // ---- texts ----

  /** f is a factor without variables, written x and worth v. */
  ghost predicate Worth(f: Factor, x: string, v: int) {
    WfF(f, 0) && TextF(f) == x && EvalF(f, NO_VARS) == Some(v)
  }

  lemma TreeValue(e: Expr, s: string)
    requires WfE(e, 0) && TextE(e) == s
    ensures Calc(s) == EvalE(e, NO_VARS)
  {
    assert s + "" == s;
    assert Derives(s, e, "");
    ExpressionValue(s, e);
  }

  lemma TermValue(t: Term, s: string)
    requires WfT(t, 0) && TextT(t) == s
    ensures Calc(s) == EvalT(t, NO_VARS)
  {
    TreeValue(Single(t), s);
  }

  function Alone(f: Factor): Term {
    One(Base(f))
  }

  lemma AloneIs(f: Factor)
    ensures TextT(Alone(f)) == TextF(f) && EvalT(Alone(f), NO_VARS) == EvalF(f, NO_VARS)
    ensures WfT(Alone(f), 0) <==> WfF(f, 0)
    ensures TextP(Base(f)) == TextF(f) && EvalP(Base(f), NO_VARS) == EvalF(f, NO_VARS)
    ensures WfP(Base(f), 0) <==> WfF(f, 0)
  {
    var p := Base(f);
    assert TextT(One(p)) == TextP(p) && EvalT(One(p), NO_VARS) == EvalP(p, NO_VARS);
    assert WfT(One(p), 0) <==> WfP(p, 0);
  }

  /** What a factor is worth is what the calculator says of its text. */
  lemma FactorValue(f: Factor, x: string, v: int)
    requires Worth(f, x, v)
    ensures Calc(x) == Some(v)
  {
    AloneIs(f);
    TreeValue(Single(Alone(f)), x);
  }

  /** A text with one operator in it. */
  lemma OneOperator(f: Factor, x: string, a: int, g: Factor, y: string, b: int)
    requires Worth(f, x, a) && Worth(g, y, b)
    ensures Calc(x + "+" + y) == Some(a + b)
    ensures Calc(x + "-" + y) == Some(a - b)
    ensures Calc(x + "*" + y) == Some(a * b)
    ensures Calc(x + "/" + y) == if b == 0 then None else Some(Quotient(a, b))
    ensures Calc(x + "^" + y) == if b < 0 then None else Some(Raise(a, b))
  {
    Sums(f, x, a, g, y, b);
    Products(f, x, a, g, y, b);
    Powers(f, x, a, g, y, b);
  }

  lemma Sums(f: Factor, x: string, a: int, g: Factor, y: string, b: int)
    requires Worth(f, x, a) && Worth(g, y, b)
    ensures Calc(x + "+" + y) == Some(a + b) && Calc(x + "-" + y) == Some(a - b)
  {
    AloneIs(f);
    AloneIs(g);
    Between(x, "+", y);
    Between(x, "-", y);
    TreeValue(Add(Single(Alone(f)), "", Alone(g)), x + "+" + y);
    TreeValue(Sub(Single(Alone(f)), "", Alone(g)), x + "-" + y);
  }

  lemma Products(f: Factor, x: string, a: int, g: Factor, y: string, b: int)
    requires Worth(f, x, a) && Worth(g, y, b)
    ensures Calc(x + "*" + y) == Some(a * b)
    ensures Calc(x + "/" + y) == if b == 0 then None else Some(Quotient(a, b))
  {
    AloneIs(f);
    AloneIs(g);
    Between(x, "*", y);
    Between(x, "/", y);
    TermValue(Mul(Alone(f), "", Base(g)), x + "*" + y);
    TermValue(Div(Alone(f), "", Base(g)), x + "/" + y);
  }

  lemma Powers(f: Factor, x: string, a: int, g: Factor, y: string, b: int)
    requires Worth(f, x, a) && Worth(g, y, b)
    ensures Calc(x + "^" + y) == if b < 0 then None else Some(Raise(a, b))
  {
    AloneIs(g);
    Between(x, "^", y);
    TermValue(One(Pow(f, "", Base(g))), x + "^" + y);
  }

  lemma Between(x: string, op: string, y: string)
    ensures x + ("" + op + y) == x + op + y
  {
  }

  /** Signs and brackets; a sign binds before everything, so that it belongs to the base of a power. */
  lemma SignsAndBrackets(f: Factor, x: string, a: int, g: Factor, y: string, b: int)
    requires Worth(f, x, a) && Worth(g, y, b) && b >= 0
    ensures Calc("-" + x) == Some(-a) && Calc("+" + x) == Some(a) && Calc("(" + x + ")") == Some(a)
    ensures Calc("-" + x + "^" + y) == Some(Raise(-a, b))
  {
    Signs(f, x, a);
    FactorValue(Neg("", f), "-" + x, -a);
    FactorValue(Pos("", f), "+" + x, a);
    FactorValue(Paren("", Single(Alone(f)), ""), "(" + x + ")", a);
    Powers(Neg("", f), "-" + x, -a, g, y, b);
  }

  lemma Signs(f: Factor, x: string, a: int)
    requires Worth(f, x, a)
    ensures Worth(Neg("", f), "-" + x, -a) && Worth(Pos("", f), "+" + x, a)
    ensures Worth(Paren("", Single(Alone(f)), ""), "(" + x + ")", a)
  {
    AloneIs(f);
    var e := Single(Alone(f));
    assert TextE(e) == x && EvalE(e, NO_VARS) == Some(a) && WfE(e, 0);
    assert "" + "-" + x == "-" + x && "" + "+" + x == "+" + x;
    assert "" + "(" + x + "" + ")" == "(" + x + ")";
  }

  /** Two operators: products before sums, the left one first, and of powers the right one. */
  lemma TwoOperators(f: Factor, x: string, a: int, g: Factor, y: string, b: int, h: Factor, z: string, c: int)
    requires Worth(f, x, a) && Worth(g, y, b) && Worth(h, z, c)
    ensures Calc(x + "+" + y + "*" + z) == Some(a + b * c)
    ensures Calc(x + "*" + y + "+" + z) == Some(a * b + c)
    ensures Calc(x + "-" + y + "-" + z) == Some((a - b) - c)
    ensures c >= 0 ==>
              Calc(x + "^" + y + "^" + z) == if Raise(b, c) < 0 then None else Some(Raise(a, Raise(b, c)))
    ensures b != 0 && c != 0 ==> Calc(x + "/" + y + "/" + z) == Some(Quotient(Quotient(a, b), c))
    ensures c >= 0 ==> Calc(x + "*" + y + "^" + z) == Some(a * Raise(b, c))
  {
    SumAndProduct(f, x, a, g, y, b, h, z, c);
    LeftFirst(f, x, a, g, y, b, h, z, c);
    PowersFirst(f, x, a, g, y, b, h, z, c);
  }

  lemma SumAndProduct(f: Factor, x: string, a: int, g: Factor, y: string, b: int, h: Factor, z: string, c: int)
    requires Worth(f, x, a) && Worth(g, y, b) && Worth(h, z, c)
    ensures Calc(x + "+" + y + "*" + z) == Some(a + b * c) && Calc(x + "*" + y + "+" + z) == Some(a * b + c)
  {
    AloneIs(f);
    AloneIs(g);
    AloneIs(h);
    var t, u := Mul(Alone(g), "", Base(h)), Mul(Alone(f), "", Base(g));
    Between(y, "*", z);
    Between(x, "*", y);
    assert TextT(t) == y + "*" + z && EvalT(t, NO_VARS) == Some(b * c) && WfT(t, 0);
    assert TextT(u) == x + "*" + y && EvalT(u, NO_VARS) == Some(a * b) && WfT(u, 0);
    assert x + ("" + "+" + (y + "*" + z)) == x + "+" + y + "*" + z;
    Between(x + "*" + y, "+", z);
    TreeValue(Add(Single(Alone(f)), "", t), x + "+" + y + "*" + z);
    TreeValue(Add(Single(u), "", Alone(h)), x + "*" + y + "+" + z);
  }

  lemma LeftFirst(f: Factor, x: string, a: int, g: Factor, y: string, b: int, h: Factor, z: string, c: int)
    requires Worth(f, x, a) && Worth(g, y, b) && Worth(h, z, c)
    ensures Calc(x + "-" + y + "-" + z) == Some((a - b) - c)
    ensures b != 0 && c != 0 ==> Calc(x + "/" + y + "/" + z) == Some(Quotient(Quotient(a, b), c))
  {
    AloneIs(f);
    AloneIs(g);
    AloneIs(h);
    var e := Single(Alone(f));
    var d, t := Sub(e, "", Alone(g)), Div(Alone(f), "", Base(g));
    Between(x, "-", y);
    Between(x, "/", y);
    assert EvalE(e, NO_VARS) == Some(a) && WfE(e, 0) && TextE(e) == x;
    assert EvalT(Alone(g), NO_VARS) == Some(b);
    assert TextE(d) == x + "-" + y && EvalE(d, NO_VARS) == Some(a - b) && WfE(d, 0);
    assert TextT(t) == x + "/" + y && WfT(t, 0);
    Between(x + "-" + y, "-", z);
    Between(x + "/" + y, "/", z);
    TreeValue(Sub(d, "", Alone(h)), x + "-" + y + "-" + z);
    TermValue(Div(t, "", Base(h)), x + "/" + y + "/" + z);
  }

  lemma PowersFirst(f: Factor, x: string, a: int, g: Factor, y: string, b: int, h: Factor, z: string, c: int)
    requires Worth(f, x, a) && Worth(g, y, b) && Worth(h, z, c)
    ensures c >= 0 ==>
              Calc(x + "^" + y + "^" + z) == if Raise(b, c) < 0 then None else Some(Raise(a, Raise(b, c)))
    ensures c >= 0 ==> Calc(x + "*" + y + "^" + z) == Some(a * Raise(b, c))
  {
    AloneIs(f);
    AloneIs(h);
    var p := Pow(g, "", Base(h));
    Between(y, "^", z);
    assert TextP(p) == y + "^" + z && WfP(p, 0);
    assert c >= 0 ==> EvalP(p, NO_VARS) == Some(Raise(b, c));
    assert x + ("" + "^" + (y + "^" + z)) == x + "^" + y + "^" + z;
    assert x + ("" + "*" + (y + "^" + z)) == x + "*" + y + "^" + z;
    TermValue(One(Pow(f, "", p)), x + "^" + y + "^" + z);
    TermValue(Mul(Alone(f), "", p), x + "*" + y + "^" + z);
  }

  /** Blanks and tabs before a text make no difference to what is read next. */
  lemma {:induction false} BlanksSkipped(w: string, s: string)
    requires forall i :: 0 <= i < |w| ==> w[i] == ' ' || w[i] == '\t'
    ensures Skip(w + s) == Skip(s)
    ensures s == "" || (s[0] != ' ' && s[0] != '\t') ==> Skip(s) == s
    decreases |w|
  {
    if w == "" {
      assert w + s == s;
    } else {
      BlanksSkipped(w[1..], s);
      assert (w + s)[1..] == w[1..] + s;
    }
  }
}
