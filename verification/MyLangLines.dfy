/** What one line of MyLang, and one condition, mean: as texts, and as the trees they print. */
module MyLangLines {
  import opened Grammar
  import opened GrammarComplete
  import opened Calculator
  import opened MyLangExpand

  const MAX_VARS: nat := 32
  const SIDE: nat := 63   // what eval_condition's 64-character sides hold

  // ---- expressions ----

  /** eval_expr: the value of a text under the variables; a text too long once expanded has none. */
  ghost function EvalText(s: string, env: Env): Option<int> {
    if |Expand(s, env)| <= BUFFER then Calc(Expand(s, env)) else None
  }

  /** The value of a tree, if its text with numbers for variables fits the buffer. */
  ghost function Worth(e: Expr, ws: string, env: Env): Option<int> {
    if |TextE(SubstE(e, env)) + ws| <= BUFFER then EvalE(e, env) else None
  }

  /** Evaluating the text of a tree is evaluating the tree under the variable table. */
  lemma ExpressionMeaning(e: Expr, ws: string, env: Env)
    requires WfE(e, NAME_MAX) && Blank(ws)
    ensures Expand(TextE(e) + ws, env) == TextE(SubstE(e, env)) + ws
    ensures EvalText(TextE(e) + ws, env) == Worth(e, ws, env)
  {
    ExpandE(e, ws, env);
    ExpandPlain(ws, "", env);
    assert ws + "" == ws;
    SubstMeansE(e, env);
    var s, e' := Expand(TextE(e) + ws, env), SubstE(e, env);
    assert Derives(s, e', ws);
    assert Expression(s, e');
    ExpressionValue(s, e');
  }

  /** A name of more than 15 characters is read as several names in a row. */
  lemma LongName(n: string, env: Env)
    requires |n| > NAME_MAX && Identifier(n)
    ensures Expand(n, env) == NumberText(Value(n[..NAME_MAX], env)) + Expand(n[NAME_MAX..], env)
  {
    NameEnd(n, NAME_MAX, NAME_MAX);
  }

  predicate Idents(s: string) {
    forall i :: 0 <= i < |s| ==> IsIdent(s[i])
  }

  lemma {:induction false} AfterIdent(s: string, limit: nat)
    requires Idents(s)
    ensures Idents(AfterName(s, limit))
  {
    if s != "" && IsIdent(s[0]) && limit > 0 {
      AfterIdent(s[1..], limit - 1);
    }
  }

  lemma {:induction false} IdentDigits(s: string, env: Env)
    requires Idents(s) && forall n :: n in env ==> env[n] >= 0
    ensures Digits(Expand(s, env))
    decreases |s|
  {
    if s != "" {
      if IsIdentStart(s[0]) {
        NameStarts(s);
        AfterIdent(s, NAME_MAX);
        IdentDigits(AfterName(s, NAME_MAX), env);
      } else {
        IdentDigits(s[1..], env);
      }
    }
  }

  lemma {:induction false} LeadingOne(d: string)
    requires Digits(d)
    ensures Decimal("1" + d) > 0
    decreases |d|
  {
    var t := "1" + d;
    if d == "" {
      assert t[..0] == "";
    } else {
      LeadingOne(d[..|d| - 1]);
      assert t[..|t| - 1] == "1" + d[..|d| - 1];
    }
  }

  /** The expression that is just a factor. */
  function Leaf(f: Factor): Expr {
    Single(One(Base(f)))
  }

  lemma LeafIs(f: Factor, limit: nat, env: Env)
    ensures TextE(Leaf(f)) == TextF(f) && EvalE(Leaf(f), env) == EvalF(f, env)
            && (WfE(Leaf(f), limit) <==> WfF(f, limit))
    ensures SubstE(Leaf(f), env) == Leaf(SubstF(f, env))
  {
    var p := Base(f);
    var t := One(p);
    assert TextP(p) == TextF(f) && EvalP(p, env) == EvalF(f, env) && (WfP(p, limit) <==> WfF(f, limit));
    assert TextT(t) == TextP(p) && EvalT(t, env) == EvalP(p, env) && (WfT(t, limit) <==> WfP(p, limit));
    assert SubstP(p, env) == Base(SubstF(f, env)) && SubstT(t, env) == One(SubstP(p, env));
  }

  lemma CalcDigits(d: string)
    requires d != "" && Digits(d)
    ensures Calc(d) == Some(Decimal(d))
  {
    var f := Num("", d);
    LeafIs(f, NAME_MAX, NO_VARS);
    LeafIs(f, 0, NO_VARS);
    assert TextF(f) == d && d + "" == d;
    assert Derives(d, Leaf(f), "");
    ExpressionValue(d, Leaf(f));
  }

  /** A name always reads as its own value exactly when it has at most 15 characters. */
  lemma NameLimit(n: string)
    requires Identifier(n)
    ensures |n| <= 15 <==>
            forall env: Env :: |NumberText(Value(n, env))| <= 127 ==> EvalText(n, env) == Some(Value(n, env))
  {
    if |n| <= NAME_MAX {
      forall env: Env | |NumberText(Value(n, env))| <= BUFFER
        ensures EvalText(n, env) == Some(Value(n, env))
      {
        NameMeaning(n, env);
      }
    } else {
      var env: Env := map[n[..NAME_MAX] := 1];
      NameTooLong(n, env);
    }
  }

  lemma NameTooLong(n: string, env: Env)
    requires Identifier(n) && |n| > NAME_MAX && env == map[n[..NAME_MAX] := 1]
    ensures |NumberText(Value(n, env))| <= BUFFER && EvalText(n, env) != Some(Value(n, env))
  {
    var d := LongNameText(n, env);
    LeadingOne(d);
    CalcDigits("1" + d);
    assert Value(n, env) == 0;
    assert |NumberText(0)| == 1;
  }

  lemma LongNameText(n: string, env: Env) returns (d: string)
    requires Identifier(n) && |n| > NAME_MAX && env == map[n[..NAME_MAX] := 1]
    ensures Digits(d) && Expand(n, env) == "1" + d && n !in env
  {
    LongName(n, env);
    d := Expand(n[NAME_MAX..], env);
    assert Idents(n[NAME_MAX..]);
    IdentDigits(n[NAME_MAX..], env);
    assert NumberText(1) == "1";
    assert |n| != |n[..NAME_MAX]|;
  }

  lemma NameMeaning(n: string, env: Env)
    requires Identifier(n) && |n| <= NAME_MAX && |NumberText(Value(n, env))| <= BUFFER
    ensures EvalText(n, env) == Some(Value(n, env))
  {
    var f := Var("", n);
    LeafIs(f, NAME_MAX, env);
    assert TextE(Leaf(f)) + "" == n;
    ExpressionMeaning(Leaf(f), "", env);
    NameText(n, env);
  }

  lemma NameText(n: string, env: Env)
    ensures TextE(SubstE(Leaf(Var("", n)), env)) + "" == NumberText(Value(n, env))
  {
    var f := Var("", n);
    LeafIs(f, 0, env);
    LeafIs(SubstF(f, env), 0, env);
    TextVar("", n, env);
    Padded(NumberText(Value(n, env)));
  }

  lemma Padded(x: string)
    ensures ("" + x) + "" == x
  {
  }

  // ---- conditions ----

  function At(s: string, i: nat): char {
    if i < |s| then s[i] else '\0'
  }

  datatype Comparison = Eq | Ne | Le | Ge | Lt | Gt

  function Sign(op: Comparison): string {
    match op
    case Eq => "==" case Ne => "!=" case Le => "<=" case Ge => ">=" case Lt => "<" case Gt => ">"
  }

  predicate Compare(op: Comparison, a: int, b: int) {
    match op
    case Eq => a == b case Ne => a != b case Le => a <= b case Ge => a >= b case Lt => a < b case Gt => a > b
  }

  predicate IsSign(c: char) {
    c == '=' || c == '!' || c == '<' || c == '>'
  }

  /** The comparison written at position i, if there is one. */
  function SignAt(s: string, i: nat): Option<Comparison>
    requires i < |s|
  {
    if At(s, i + 1) == '=' && IsSign(s[i]) then
      Some(if s[i] == '=' then Eq else if s[i] == '!' then Ne else if s[i] == '<' then Le else Ge)
    else if s[i] == '<' then Some(Lt)
    else if s[i] == '>' then Some(Gt)
    else None
  }

  /** The first position from i on at which a comparison is written, or |s|. */
  function FirstSign(s: string, i: nat): (k: nat)
    requires i <= |s|
    ensures i <= k <= |s| && (forall j :: i <= j < k ==> SignAt(s, j).None?) && (k < |s| ==> SignAt(s, k).Some?)
    decreases |s| - i
  {
    if i == |s| || SignAt(s, i).Some? then i else FirstSign(s, i + 1)
  }

  function Cut(s: string): string {
    if |s| <= SIDE then s else s[..SIDE]
  }

  /** eval_condition: whether the text holds, if it can be told. */
  ghost function Holds(cond: string, env: Env): Option<bool> {
    var p := Skip(cond);
    var k := FirstSign(p, 0);
    if k == |p| then
      match EvalText(p, env) case None => None case Some(v) => Some(v != 0)
    else
      var op := SignAt(p, k).value;
      match (EvalText(Cut(p[..k]), env), EvalText(Cut(p[k + |Sign(op)|..]), env))
      case (Some(a), Some(b)) => Some(Compare(op, a, b))
      case (_, _) => None
  }

  // Expressions never contain the characters a comparison is made of, nor a quote.

  predicate Signless(s: string) {
    forall i :: 0 <= i < |s| ==> !IsSign(s[i]) && s[i] != '"'
  }

  lemma {:induction false} SignlessF(f: Factor, limit: nat)
    requires WfF(f, limit)
    ensures Signless(TextF(f)) && TextF(f) != ""
    decreases f
  {
    match f
    case Num(ws, d) =>
    case Var(ws, n) =>
    case Neg(ws, g) => SignlessF(g, limit);
    case Pos(ws, g) => SignlessF(g, limit);
    case Paren(ws, e, ws2) => SignlessE(e, limit);
  }

  lemma {:induction false} SignlessP(p: Power, limit: nat)
    requires WfP(p, limit)
    ensures Signless(TextP(p)) && TextP(p) != ""
    decreases p
  {
    match p
    case Base(f) => SignlessF(f, limit);
    case Pow(f, ws, e) => SignlessF(f, limit); SignlessP(e, limit);
  }

  lemma {:induction false} SignlessT(t: Term, limit: nat)
    requires WfT(t, limit)
    ensures Signless(TextT(t)) && TextT(t) != ""
    decreases t
  {
    match t
    case One(p) => SignlessP(p, limit);
    case Mul(u, ws, p) => SignlessT(u, limit); SignlessP(p, limit);
    case Div(u, ws, p) => SignlessT(u, limit); SignlessP(p, limit);
  }

  lemma {:induction false} SignlessE(e: Expr, limit: nat)
    requires WfE(e, limit)
    ensures Signless(TextE(e)) && TextE(e) != ""
    decreases e
  {
    match e
    case Single(t) => SignlessT(t, limit);
    case Add(d, ws, t) => SignlessE(d, limit); SignlessT(t, limit);
    case Sub(d, ws, t) => SignlessE(d, limit); SignlessT(t, limit);
  }

  lemma SignFound(a: string, op: Comparison, b: string)
    requires Signless(a) && Signless(b)
    ensures var s := a + Sign(op) + b; FirstSign(s, 0) == |a| && SignAt(s, |a|) == Some(op)
    ensures (a + Sign(op) + b)[..|a|] == a && (a + Sign(op) + b)[|a| + |Sign(op)|..] == b
  {
    var s := a + Sign(op) + b;
    assert s[|a|] == Sign(op)[0];
    assert |Sign(op)| == 2 ==> s[|a| + 1] == Sign(op)[1];
    assert |Sign(op)| == 1 && b != "" ==> s[|a| + 1] == b[0];
    assert SignAt(s, |a|) == Some(op);
    forall j | 0 <= j < |a|
      ensures SignAt(s, j).None?
    {
      assert s[j] == a[j];
    }
  }

  /** What a comparison takes for the value of a side: of a side that is too long only the front is read. */
  ghost function SideWorth(e: Expr, ws: string, env: Env): Option<int> {
    if |TextE(e) + ws| <= SIDE then Worth(e, ws, env) else EvalText(Cut(TextE(e) + ws), env)
  }

  lemma SideMeaning(e: Expr, ws: string, env: Env)
    requires WfE(e, NAME_MAX) && Blank(ws)
    ensures EvalText(Cut(TextE(e) + ws), env) == SideWorth(e, ws, env)
  {
    ExpressionMeaning(e, ws, env);
  }

  /** A comparison holds as the values of its sides compare, and cannot be told if either has none. */
  lemma ConditionMeaning(w: string, l: Expr, wl: string, op: Comparison, r: Expr, wr: string, env: Env)
    requires Blank(w) && WfE(l, NAME_MAX) && Blank(wl) && WfE(r, NAME_MAX) && Blank(wr)
    requires TextE(l) != "" && !IsBlank(TextE(l)[0])
    ensures Holds(w + (TextE(l) + wl + Sign(op) + (TextE(r) + wr)), env) ==
            match (SideWorth(l, wl, env), SideWorth(r, wr, env))
            case (Some(a), Some(b)) => Some(Compare(op, a, b))
            case (_, _) => None
  {
    SignlessE(l, NAME_MAX);
    SignlessE(r, NAME_MAX);
    ComparisonText(w, TextE(l) + wl, op, TextE(r) + wr, env);
    SideMeaning(l, wl, env);
    SideMeaning(r, wr, env);
  }

  /** The six signs, as integers compare. */
  lemma Comparisons(w: string, l: Expr, wl: string, op: Comparison, r: Expr, wr: string, env: Env, a: int, b: int)
    requires Blank(w) && WfE(l, NAME_MAX) && Blank(wl) && WfE(r, NAME_MAX) && Blank(wr)
    requires TextE(l) != "" && !IsBlank(TextE(l)[0])
    requires SideWorth(l, wl, env) == Some(a) && SideWorth(r, wr, env) == Some(b)
    ensures var sign := match op
                        case Lt => "<" case Gt => ">" case Le => "<=" case Ge => ">=" case Eq => "==" case Ne => "!=";
            var holds := match op
                         case Lt => a < b case Gt => a > b case Le => a <= b
                         case Ge => a >= b case Eq => a == b case Ne => a != b;
            Holds(w + (TextE(l) + wl + sign + (TextE(r) + wr)), env) == Some(holds)
  {
    ConditionMeaning(w, l, wl, op, r, wr, env);
  }

  lemma ComparisonText(w: string, a: string, op: Comparison, b: string, env: Env)
    requires Blank(w) && a != "" && !IsBlank(a[0]) && Signless(a) && Signless(b)
    ensures Holds(w + (a + Sign(op) + b), env) ==
            match (EvalText(Cut(a), env), EvalText(Cut(b), env))
            case (Some(x), Some(y)) => Some(Compare(op, x, y))
            case (_, _) => None
  {
    BlanksOf(w, a + Sign(op) + b);
    SignFound(a, op, b);
  }

  // ---- sides that are too long ----

  function Zeroes(n: nat): string {
    seq(n, _ => '0')
  }

  lemma {:induction false} ZeroesAreNothing(n: nat)
    ensures Digits(Zeroes(n)) && Decimal(Zeroes(n)) == 0
    ensures Digits(Zeroes(n) + "1") && Decimal(Zeroes(n) + "1") == 1
  {
    var z := Zeroes(n);
    if n > 0 {
      ZeroesAreNothing(n - 1);
      assert z[..n - 1] == Zeroes(n - 1);
    }
    assert (z + "1")[..n] == z;
  }

  /** The number one, written with n characters. */
  function LongOne(n: nat): Expr
    requires n > 0
  {
    Leaf(Num("", Zeroes(n - 1) + "1"))
  }

  lemma LongOneIs(n: nat, env: Env)
    requires n > 0
    ensures var e := LongOne(n);
            && WfE(e, NAME_MAX) && TextE(e) == Zeroes(n - 1) + "1" && |TextE(e)| == n
            && EvalE(e, env) == Some(1) && SubstE(e, env) == e
  {
    var f := Num("", Zeroes(n - 1) + "1");
    ZeroesAreNothing(n - 1);
    LeafIs(f, NAME_MAX, env);
    assert "" + (Zeroes(n - 1) + "1") == Zeroes(n - 1) + "1";
  }

  /** A number is read as it stands. */
  lemma EvalDigits(d: string, env: Env)
    requires d != "" && Digits(d) && |d| <= BUFFER
    ensures EvalText(d, env) == Some(Decimal(d))
  {
    ExpandPlain(d, "", env);
    assert d + "" == d;
    CalcDigits(d);
  }

  /** Of a one written with more than 63 characters only zeros are read. */
  lemma LongOneCut(n: nat, env: Env)
    requires n > SIDE
    ensures SideWorth(LongOne(n), "", env) == Some(0)
    ensures n <= BUFFER ==> Worth(LongOne(n), "", env) == Some(1)
    ensures n > BUFFER ==> Worth(LongOne(n), "", env) == None
  {
    LongOneIs(n, env);
    var e := LongOne(n);
    assert TextE(e) + "" == TextE(e);
    assert Cut(TextE(e)) == Zeroes(SIDE);
    ZeroesAreNothing(SIDE);
    EvalDigits(Zeroes(SIDE), env);
  }

  /** An expression that is n characters long once its variables are replaced has a value only if n is at most 127. */
  lemma BufferLimit(n: nat, env: Env)
    requires n > 0
    ensures TextE(SubstE(LongOne(n), env)) == TextE(LongOne(n)) && |TextE(LongOne(n))| == n
    ensures EvalText(TextE(LongOne(n)), env) == if n <= 127 then Some(1) else None
  {
    LongOneIs(n, env);
    assert TextE(LongOne(n)) + "" == TextE(LongOne(n));
    ExpressionMeaning(LongOne(n), "", env);
  }

  /** A side of a comparison of n characters always counts as its value exactly when n is at most 63. */
  lemma SideLimit(n: nat)
    requires n > 0
    ensures n <= 63 <==>
            forall e: Expr, ws: string, env: Env :: WfE(e, NAME_MAX) && Blank(ws) && |TextE(e) + ws| == n ==>
              SideWorth(e, ws, env) == Worth(e, ws, env)
  {
    if n > SIDE {
      LongOneIs(n, NO_VARS);
      LongOneCut(n, NO_VARS);
      assert |TextE(LongOne(n)) + ""| == n;
    }
  }

  /** So one, written long enough, equals zero. */
  lemma OneIsZero(n: nat, env: Env)
    requires 63 < n <= 127
    ensures Worth(LongOne(n), "", env) == Some(1)
    ensures Holds(TextE(LongOne(n)) + "==" + "0", env) == Some(true)
  {
    LongOneIs(n, env);
    LongOneCut(n, env);
    var a := TextE(LongOne(n));
    SignlessE(LongOne(n), NAME_MAX);
    ComparisonText("", a, Eq, "0", env);
    assert "" + (a + Sign(Eq) + "0") == a + "==" + "0" && a + "" == a;
    SideMeaning(LongOne(n), "", env);
    EvalDigits("0", env);
    assert "0"[..0] == "";
  }

  /** An expression alone holds unless it is zero. */
  lemma TruthMeaning(w: string, e: Expr, ws: string, env: Env)
    requires Blank(w) && WfE(e, NAME_MAX) && Blank(ws) && TextE(e) != "" && !IsBlank(TextE(e)[0])
    ensures Holds(w + (TextE(e) + ws), env) == match Worth(e, ws, env) case None => None case Some(v) => Some(v != 0)
  {
    var p := TextE(e) + ws;
    SignlessE(e, NAME_MAX);
    BlanksOf(w, p);
    assert Signless(p);
    assert FirstSign(p, 0) == |p|;
    ExpressionMeaning(e, ws, env);
  }

  // ---- lines ----

  datatype Output = Said(text: string) | Shown(value: int) | Complaint(what: Trouble)
  datatype Trouble =
    | BadExpression | TooManyVariables | SyntaxError | BadCondition | UnexpectedEnd | IfWithoutEnd | WhileWithoutEnd

  datatype State = State(env: Env, out: seq<Output>) {
    function Say(o: Output): State {
      State(env, out + [o])
    }
  }

  /** A state and whether the interpreter goes on. */
  datatype Outcome = Outcome(st: State, ok: bool)

  function Fail(st: State, t: Trouble): Outcome {
    Outcome(st.Say(Complaint(t)), false)
  }

  function UpTo(s: string, c: char): (t: string)
    ensures |t| <= |s| && c !in t && (|t| < |s| ==> s[|t|] == c)
  {
    if s == "" || s[0] == c then "" else [s[0]] + UpTo(s[1..], c)
  }

  predicate IsPrint(p: string) {
    && At(p, 0) == 'p' && At(p, 1) == 'r' && At(p, 2) == 'i' && At(p, 3) == 'n' && At(p, 4) == 't'
    && (At(p, 5) == ' ' || At(p, 5) == '\t' || At(p, 5) == '\0')
  }

  ghost function Print(arg: string, st: State): Outcome {
    if At(arg, 0) == '"' then Outcome(st.Say(Said(UpTo(arg[1..], '"'))), true)
    else
      match EvalText(arg, st.env)
      case None => Fail(st, BadExpression)
      case Some(v) => Outcome(st.Say(Shown(v)), true)
  }

  ghost function Assign(name: string, text: string, st: State): Outcome {
    match EvalText(text, st.env)
    case None => Fail(st, BadExpression)
    case Some(v) =>
      if name in st.env || |st.env| < MAX_VARS then Outcome(st.(env := st.env[name := v]), true)
      else Fail(st, TooManyVariables)
  }

  /** mlang_exec_line. */
  ghost function DoLine(line: string, st: State): Outcome {
    var p := Skip(line);
    if p == "" || p[0] == '#' then Outcome(st, true)
    else if IsPrint(p) then Print(Skip(p[5..]), st)
    else
      var n := Name(p, NAME_MAX);
      var q := Skip(AfterName(p, NAME_MAX));
      if IsIdentStart(p[0]) && At(q, 0) == '=' then Assign(n, Skip(q[1..]), st)
      else Fail(st, SyntaxError)
  }

  /** An assignment sets exactly its variable to the value of its expression. */
  lemma AssignMeaning(w: string, n: string, w1: string, w2: string, e: Expr, ws: string, st: State)
    requires Blank(w) && Identifier(n) && |n| <= NAME_MAX && Blank(w1) && Blank(w2) && WfE(e, NAME_MAX) && Blank(ws)
    requires TextE(e) != "" && !IsBlank(TextE(e)[0]) && (n == "print" ==> w1 == "")
    ensures DoLine(w + (n + (w1 + (['='] + (w2 + (TextE(e) + ws))))), st) ==
            match Worth(e, ws, st.env)
            case None => Fail(st, BadExpression)
            case Some(v) =>
              if n in st.env || |st.env| < 32 then Outcome(State(st.env[n := v], st.out), true)
              else Fail(st, TooManyVariables)
  {
    AssignText(w, n, w1, w2, TextE(e) + ws, st);
    ExpressionMeaning(e, ws, st.env);
  }

  lemma AssignText(w: string, n: string, w1: string, w2: string, x: string, st: State)
    requires Blank(w) && Identifier(n) && |n| <= NAME_MAX && Blank(w1) && Blank(w2)
    requires x != "" && !IsBlank(x[0]) && (n == "print" ==> w1 == "")
    ensures DoLine(w + (n + (w1 + (['='] + (w2 + x)))), st) == Assign(n, x, st)
  {
    var q := ['='] + (w2 + x);
    var p := n + (w1 + q);
    BlanksOf(w, p);
    NotPrint(n, w1, q);
    NameOf(n, w1 + q, NAME_MAX);
    BlanksOf(w1, q);
    assert q[1..] == w2 + x;
    BlanksOf(w2, x);
  }

  lemma NotPrint(n: string, w: string, q: string)
    requires Identifier(n) && Blank(w) && q != "" && q[0] == '=' && (n == "print" ==> w == "")
    ensures !IsPrint(n + (w + q))
  {
    var p := n + (w + q);
    assert |n| > 5 ==> p[5] == n[5];
    assert |n| < 5 ==> p[|n|] == (w + q)[0] && !IsIdent(p[|n|]);
    assert |n| == 5 ==> p[5] == (w + q)[0] && p[..5] == n;
  }

  /** Printing an expression shows its value and changes no variable. */
  lemma PrintMeaning(w: string, w1: string, e: Expr, ws: string, st: State)
    requires Blank(w) && Blank(w1) && w1 != "" && WfE(e, NAME_MAX) && Blank(ws)
    requires TextE(e) != "" && !IsBlank(TextE(e)[0])
    ensures DoLine(w + ("print" + (w1 + (TextE(e) + ws))), st) ==
            match Worth(e, ws, st.env)
            case None => Fail(st, BadExpression)
            case Some(v) => Outcome(st.Say(Shown(v)), true)
  {
    SignlessE(e, NAME_MAX);
    PrintText(w, w1, TextE(e) + ws, st);
    ExpressionMeaning(e, ws, st.env);
  }

  lemma PrintText(w: string, w1: string, x: string, st: State)
    requires Blank(w) && Blank(w1) && w1 != "" && x != "" && !IsBlank(x[0])
    ensures DoLine(w + ("print" + (w1 + x)), st) == Print(x, st)
  {
    var p := "print" + (w1 + x);
    BlanksOf(w, p);
    assert p[5] == w1[0] && p[5..] == w1 + x;
    BlanksOf(w1, x);
  }
}
