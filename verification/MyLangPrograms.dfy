/** Programs over expression trees: what they do, what they are written as, and that running the text does it. */
module MyLangPrograms {
  import opened Grammar
  import opened GrammarComplete
  import opened MyLangExpand
  import opened MyLangLines
  import opened MyLangScript
  import opened MyLangInterpreter

  // ---- programs ----

  /** One line. Every blank is kept, so that a program and its text determine each other. */
  datatype Action =
    | Set(lead: string, name: string, gap: string, gap2: string, value: Expr, trail: string)
    | Show(lead: string, gap: string, value: Expr, trail: string)
    | Tell(lead: string, gap: string, text: string, trail: string)
    | Note(lead: string, text: string)
  datatype Test =
    | Relation(left: Expr, gap: string, op: Comparison, right: Expr, trail: string)
    | NonZero(value: Expr, trail: string)
  datatype Command =
    | Do(action: Action)
    | When(lead: string, gap: string, test: Test, body: Commands, foot: string)
    | Loop(lead: string, gap: string, test: Test, actions: seq<Action>, foot: string)
  datatype Commands = Done | Chain(first: Command, rest: Commands)

  // ---- what they are written as ----

  function ActionLine(a: Action): string {
    match a
    case Set(w, n, w1, w2, e, ws) => w + (n + (w1 + (['='] + (w2 + (TextE(e) + ws)))))
    case Show(w, w1, e, ws) => w + ("print" + (w1 + (TextE(e) + ws)))
    case Tell(w, w1, t, rest) => w + ("print" + (w1 + (['"'] + (t + (['"'] + rest)))))
    case Note(w, t) => w + t
  }

  function ActionLines(a: seq<Action>): (ls: seq<string>)
    ensures |ls| == |a| && forall i :: 0 <= i < |a| ==> ls[i] == ActionLine(a[i])
  {
    if a == [] then [] else [ActionLine(a[0])] + ActionLines(a[1..])
  }

  function TestText(t: Test): string {
    match t
    case Relation(l, wl, op, r, wr) => TextE(l) + wl + Sign(op) + (TextE(r) + wr)
    case NonZero(e, ws) => TextE(e) + ws
  }

  function Written(c: Command): Stmt {
    match c
    case Do(a) => Simple(ActionLine(a))
    case When(w, w1, t, b, f) => If(w + ("if" + (w1 + TestText(t))), WrittenAll(b), f + "end")
    case Loop(w, w1, t, b, f) => While(w + ("while" + (w1 + TestText(t))), ActionLines(b), f + "end")
  }

  function WrittenAll(cs: Commands): Program {
    match cs
    case Done => Stop
    case Chain(c, r) => Then(Written(c), WrittenAll(r))
  }

  // ---- which are proper ----

  /** Blanks before the expression belong to what precedes it. */
  predicate Flush(e: Expr) {
    WfE(e, NAME_MAX) && TextE(e) != "" && !IsBlank(TextE(e)[0])
  }

  predicate WfAction(a: Action) {
    match a
    case Set(w, n, w1, w2, e, ws) =>
      && Blank(w) && Identifier(n) && |n| <= NAME_MAX && Blank(w1) && Blank(w2) && Flush(e) && Blank(ws)
      && (n in {"print", "if", "while"} ==> w1 == "")
    case Show(w, w1, e, ws) => Blank(w) && Blank(w1) && w1 != "" && Flush(e) && Blank(ws)
    case Tell(w, w1, t, _) => Blank(w) && Blank(w1) && w1 != "" && '"' !in t
    case Note(w, t) => Blank(w) && (t == "" || t[0] == '#')
  }

  predicate WfTest(t: Test) {
    match t
    case Relation(l, wl, _, r, wr) =>
      Flush(l) && Blank(wl) && WfE(r, NAME_MAX) && Blank(wr)
    case NonZero(e, ws) => Flush(e) && Blank(ws)
  }

  predicate WfCommand(c: Command) {
    match c
    case Do(a) => WfAction(a)
    case When(w, w1, t, b, f) => Blank(w) && Blank(w1) && w1 != "" && WfTest(t) && WfCommands(b) && Blank(f)
    case Loop(w, w1, t, b, f) =>
      && Blank(w) && Blank(w1) && w1 != "" && WfTest(t) && Blank(f)
      && forall a :: a in b ==> WfAction(a)
  }

  predicate WfCommands(cs: Commands) {
    match cs
    case Done => true
    case Chain(c, r) => WfCommand(c) && WfCommands(r)
  }

  // ---- what they do ----

  ghost function DoAction(a: Action, st: State): Outcome {
    match a
    case Set(_, n, _, _, e, ws) => (
      match Worth(e, ws, st.env)
      case None => Fail(st, BadExpression)
      case Some(v) =>
        if n in st.env || |st.env| < MAX_VARS then Outcome(State(st.env[n := v], st.out), true)
        else Fail(st, TooManyVariables))
    case Show(_, _, e, ws) => (
      match Worth(e, ws, st.env)
      case None => Fail(st, BadExpression)
      case Some(v) => Outcome(st.Say(Shown(v)), true))
    case Tell(_, _, t, _) => Outcome(st.Say(Said(t)), true)
    case Note(_, _) => Outcome(st, true)
  }

  ghost function DoActions(a: seq<Action>, st: State): Outcome {
    if a == [] then Outcome(st, true)
    else
      var r := DoAction(a[0], st);
      if r.ok then DoActions(a[1..], r.st) else r
  }

  ghost function TestHolds(t: Test, env: Env): Option<bool> {
    match t
    case Relation(l, wl, op, r, wr) => (
      match (SideWorth(l, wl, env), SideWorth(r, wr, env))
      case (Some(a), Some(b)) => Some(Compare(op, a, b))
      case (_, _) => None)
    case NonZero(e, ws) => (match Worth(e, ws, env) case None => None case Some(v) => Some(v != 0))
  }

  ghost function DoLoop(t: Test, b: seq<Action>, rounds: nat, st: State): Outcome {
    if rounds == 0 then Outcome(st, true)
    else
      match TestHolds(t, st.env)
      case None => Fail(st, BadCondition)
      case Some(false) => Outcome(st, true)
      case Some(true) =>
        var r := DoActions(b, st);
        if r.ok then DoLoop(t, b, rounds - 1, r.st) else r
  }

  ghost function DoCommand(c: Command, st: State): Outcome {
    match c
    case Do(a) => DoAction(a, st)
    case When(_, _, t, b, _) => (
      match TestHolds(t, st.env)
      case None => Fail(st, BadCondition)
      case Some(c) => if c then DoCommands(b, st) else Outcome(st, true))
    case Loop(_, _, t, b, _) => DoLoop(t, b, ROUNDS, st)
  }

  ghost function DoCommands(cs: Commands, st: State): Outcome {
    match cs
    case Done => Outcome(st, true)
    case Chain(c, r) =>
      var o := DoCommand(c, st);
      if o.ok then DoCommands(r, o.st) else o
  }

  // ---- running the text does it ----

  lemma ActionMeans(a: Action, st: State)
    requires WfAction(a)
    ensures DoLine(ActionLine(a), st) == DoAction(a, st)
  {
    match a
    case Set(w, n, w1, w2, e, ws) => AssignMeaning(w, n, w1, w2, e, ws, st);
    case Show(w, w1, e, ws) => PrintMeaning(w, w1, e, ws, st);
    case Tell(w, w1, t, rest) =>
      var x := ['"'] + (t + (['"'] + rest));
      PrintText(w, w1, x, st);
      assert x[1..] == t + (['"'] + rest);
      QuotedText(t, ['"'] + rest);
    case Note(w, t) => BlanksOf(w, t);
  }

  lemma {:induction false} QuotedText(t: string, rest: string)
    requires '"' !in t && rest != "" && rest[0] == '"'
    ensures UpTo(t + rest, '"') == t
  {
    if t == "" {
      assert t + rest == rest;
    } else {
      QuotedText(t[1..], rest);
      assert (t + rest)[1..] == t[1..] + rest;
      assert t == [t[0]] + t[1..];
    }
  }

  /** No action is taken for the start or the end of a block. */
  lemma ActionPlain(a: Action)
    requires WfAction(a)
    ensures !Opens(ActionLine(a)) && !Closes(ActionLine(a))
  {
    match a
    case Set(w, n, w1, w2, e, ws) =>
      var q := ['='] + (w2 + (TextE(e) + ws));
      BlanksOf(w, n + (w1 + q));
      NamePlain(n, w1, q);
    case Show(w, w1, e, ws) => BlanksOf(w, "print" + (w1 + (TextE(e) + ws)));
    case Tell(w, w1, t, rest) => BlanksOf(w, "print" + (w1 + (['"'] + (t + (['"'] + rest)))));
    case Note(w, t) => BlanksOf(w, t);
  }

  lemma NamePlain(n: string, w: string, q: string)
    requires Identifier(n) && Blank(w) && q != "" && q[0] == '=' && (n in {"if", "while"} ==> w == "")
    ensures var p := n + (w + q); !IsIf(p) && !IsWhile(p) && p != "end"
  {
    var p := n + (w + q);
    assert p[|n| + |w|] == '=';
    assert p[|n|] == (w + q)[0] && !IsIdent(p[|n|]);
    assert forall i :: 0 <= i < |n| ==> p[i] == n[i] && IsIdent(p[i]);
    assert |n| == 2 && p[0] == 'i' && p[1] == 'f' ==> n == "if";
    assert |n| == 5 && SaysWhile(p) ==> n == "while";
  }

  lemma {:induction false} ActionsMean(b: seq<Action>, st: State)
    requires forall a :: a in b ==> WfAction(a)
    ensures DoLines(ActionLines(b), st) == DoActions(b, st)
  {
    if b != [] {
      var ls := ActionLines(b);
      assert ls[0] == ActionLine(b[0]) && ls[1..] == ActionLines(b[1..]);
      ActionMeans(b[0], st);
      var r := DoAction(b[0], st);
      if r.ok {
        ActionsMean(b[1..], r.st);
      }
    }
  }

  lemma TestMeans(t: Test, env: Env)
    requires WfTest(t)
    ensures Holds(TestText(t), env) == TestHolds(t, env)
  {
    assert "" + TestText(t) == TestText(t);
    match t
    case Relation(l, wl, op, r, wr) => ConditionMeaning("", l, wl, op, r, wr, env);
    case NonZero(e, ws) => TruthMeaning("", e, ws, env);
  }

  lemma TestStarts(t: Test)
    requires WfTest(t)
    ensures TestText(t) != "" && !IsBlank(TestText(t)[0])
  {
  }

  lemma IfHead(w: string, w1: string, x: string)
    requires Blank(w) && Blank(w1) && w1 != "" && x != "" && !IsBlank(x[0])
    ensures var h := w + ("if" + (w1 + x)); IsIf(Skip(h)) && Condition(h) == x
  {
    var p := "if" + (w1 + x);
    BlanksOf(w, p);
    assert p[2] == w1[0] && p[2..] == w1 + x;
    BlanksOf(w1, x);
  }

  lemma WhileWord(p: string, w1: string, x: string)
    requires p == "while" + (w1 + x) && Blank(w1) && w1 != ""
    ensures p[0] == 'w' && IsWhile(p) && p[5..] == w1 + x
  {
    assert p[0] == 'w' && p[1] == 'h' && p[2] == 'i' && p[3] == 'l' && p[4] == 'e' && p[5] == w1[0];
  }

  lemma WhileHead(w: string, w1: string, x: string)
    requires Blank(w) && Blank(w1) && w1 != "" && x != "" && !IsBlank(x[0])
    ensures var h := w + ("while" + (w1 + x)); IsWhile(Skip(h)) && Condition(h) == x
  {
    var p := "while" + (w1 + x);
    WhileWord(p, w1, x);
    BlanksOf(w, p);
    BlanksOf(w1, x);
  }

  lemma Foot(f: string)
    requires Blank(f)
    ensures Closes(f + "end")
  {
    BlanksOf(f, "end");
  }

  lemma LoopMeans(t: Test, b: seq<Action>, rounds: nat, st: State)
    requires WfTest(t) && forall a :: a in b ==> WfAction(a)
    ensures Repeat(TestText(t), ActionLines(b), rounds, st) == DoLoop(t, b, rounds, st)
  {
    forall env
      ensures Holds(TestText(t), env) == TestHolds(t, env)
    {
      TestMeans(t, env);
    }
    forall s
      ensures DoLines(ActionLines(b), s) == DoActions(b, s)
    {
      ActionsMean(b, s);
    }
    SameLoop(TestText(t), ActionLines(b), t, b, rounds, st);
  }

  /** One round, given whether the condition holds and how things stand after the body and the other rounds. */
  ghost function Round(h: Option<bool>, st: State, after: Outcome): Outcome {
    match h case None => Fail(st, BadCondition) case Some(c) => if c then after else Outcome(st, true)
  }

  lemma RepeatRound(cond: string, ls: seq<string>, rounds: nat, st: State, r: Outcome)
    requires rounds > 0 && r == DoLines(ls, st)
    ensures Repeat(cond, ls, rounds, st)
            == Round(Holds(cond, st.env), st, if r.ok then Repeat(cond, ls, rounds - 1, r.st) else r)
  {
  }

  lemma LoopRound(t: Test, b: seq<Action>, rounds: nat, st: State, r: Outcome)
    requires rounds > 0 && r == DoActions(b, st)
    ensures DoLoop(t, b, rounds, st)
            == Round(TestHolds(t, st.env), st, if r.ok then DoLoop(t, b, rounds - 1, r.st) else r)
  {
  }

  lemma {:induction false} SameLoop(cond: string, ls: seq<string>, t: Test, b: seq<Action>, rounds: nat, st: State)
    requires forall env :: Holds(cond, env) == TestHolds(t, env)
    requires forall s :: DoLines(ls, s) == DoActions(b, s)
    ensures Repeat(cond, ls, rounds, st) == DoLoop(t, b, rounds, st)
    decreases rounds
  {
    if rounds > 0 {
      var r := DoActions(b, st);
      RepeatRound(cond, ls, rounds, st, r);
      LoopRound(t, b, rounds, st, r);
      if r.ok {
        SameLoop(cond, ls, t, b, rounds - 1, r.st);
      }
    }
  }

  lemma {:induction false} CommandMeans(c: Command, st: State)
    requires WfCommand(c)
    ensures WfStmt(Written(c)) && MeansStmt(Written(c), st) == DoCommand(c, st)
    decreases c
  {
    match c
    case Do(a) =>
      ActionPlain(a);
      ActionMeans(a, st);
    case When(w, w1, t, b, f) =>
      TestStarts(t);
      IfHead(w, w1, TestText(t));
      TestMeans(t, st.env);
      Foot(f);
      ProgramMeans(b, st);
    case Loop(w, w1, t, b, f) =>
      TestStarts(t);
      WhileHead(w, w1, TestText(t));
      Foot(f);
      LoopMeans(t, b, ROUNDS, st);
      forall a | a in b
        ensures !Opens(ActionLine(a)) && !Closes(ActionLine(a))
      {
        ActionPlain(a);
      }
  }

  /** A program's lines mean what the program does, in every state. */
  lemma {:induction false} ProgramMeans(cs: Commands, st: State)
    requires WfCommands(cs)
    ensures WfProgram(WrittenAll(cs)) && Means(WrittenAll(cs), st) == DoCommands(cs, st)
    decreases cs
  {
    match cs
    case Done =>
    case Chain(c, r) =>
      CommandMeans(c, st);
      ProgramMeans(r, DoCommand(c, st).st);
  }

  /** The text of a program. */
  function Text(cs: Commands): string {
    Join(Lines(WrittenAll(cs)))
  }

  /** The text fits the interpreter: at most 64 lines, none longer than 127 characters. */
  predicate Within(cs: Commands) {
    var ls := Lines(WrittenAll(cs));
    |ls| <= 64 && forall i :: 0 <= i < |ls| ==> |ls[i]| <= 127 && '\n' !in ls[i]
  }

  /** Running the text of a program, split into lines again, is doing the program. */
  lemma TextMeans(cs: Commands, st: State)
    requires WfCommands(cs) && Within(cs)
    ensures Run(Split(Text(cs), 64), st) == DoCommands(cs, st)
  {
    ProgramMeans(cs, st);
    ScriptMeans(WrittenAll(cs), st);
  }

  /** Executing the text of a program evaluates its trees, sets its variables and follows its structure. */
  method RunText(m: Interpreter, text: string, ghost cs: Commands) returns (ok: bool)
    requires m.Valid() && WfCommands(cs) && Within(cs) && text == Text(cs)
    modifies m`out, m.vars`env, m.vars.slots
    ensures m.Valid() && Outcome(m.Now(), ok) == DoCommands(cs, old(m.Now()))
  {
    TextMeans(cs, m.Now());
    ok := m.ExecScript(text);
  }

  // ---- a loop without end ----

  const ONE: Factor := Num("", "1")

  /** The value of x and one. */
  function Successor(x: string): Expr {
    Add(Leaf(Var("", x)), "", One(Base(ONE)))
  }

  /** while 1, x=x+1, end. */
  function Counting(x: string): Command {
    Loop("", " ", NonZero(Leaf(ONE), ""), [Set("", x, "", "", Successor(x), "")], "")
  }

  lemma {:induction false} ShortNumber(n: nat, d: nat)
    requires d > 0 && n < Raise(10, d)
    ensures |NatText(n)| <= d
    decreases d
  {
    if n >= 10 {
      ShortNumber(n / 10, d - 1);
    }
  }

  lemma OneIs(env: Env)
    ensures WfF(ONE, NAME_MAX) && TextF(ONE) == "1" && EvalF(ONE, env) == Some(1) && SubstF(ONE, env) == ONE
    ensures Worth(Leaf(ONE), "", env) == Some(1)
  {
    assert "1"[..0] == "" && Decimal("1") == 1;
    LeafIs(ONE, NAME_MAX, env);
  }

  lemma SuccessorIs(x: string, env: Env)
    requires Identifier(x) && |x| <= NAME_MAX && 0 <= Value(x, env) < 10000
    ensures WfE(Successor(x), NAME_MAX) && TextE(Successor(x)) == x + "+1"
    ensures Worth(Successor(x), "", env) == Some(Value(x, env) + 1)
  {
    var f := Var("", x);
    OneIs(env);
    LeafIs(f, NAME_MAX, env);
    NameText(x, env);
    var u := One(Base(ONE));
    assert TextP(Base(ONE)) == "1" && EvalP(Base(ONE), env) == Some(1) && SubstP(Base(ONE), env) == Base(ONE);
    assert TextT(u) == "1" && EvalT(u, env) == Some(1) && SubstT(u, env) == u && WfT(u, NAME_MAX);
    assert Raise(10, 5) == 100000 by { Hundred(); }
    ShortNumber(Value(x, env), 5);
    var e := SubstE(Successor(x), env);
    assert e == Add(SubstE(Leaf(f), env), "", u);
    assert |TextE(e)| == |NumberText(Value(x, env))| + 2;
  }

  lemma Hundred()
    ensures Raise(10, 5) == 100000
  {
    assert Raise(10, 2) == 100 && Raise(10, 3) == 10 * Raise(10, 2) && Raise(10, 4) == 10 * Raise(10, 3);
  }

  lemma CountOne(x: string, st: State)
    requires Identifier(x) && |x| <= NAME_MAX && 0 <= Value(x, st.env) < 10000
    requires x in st.env || |st.env| < 32
    ensures var c := Counting(x);
            && TestHolds(c.test, st.env) == Some(true)
            && DoActions(c.actions, st) == Outcome(State(st.env[x := Value(x, st.env) + 1], st.out), true)
  {
    OneIs(st.env);
    SuccessorIs(x, st.env);
    OneAction(Counting(x).actions, st);
  }

  lemma OneAction(b: seq<Action>, st: State)
    requires |b| == 1
    ensures DoActions(b, st) == DoAction(b[0], st)
  {
    assert b[1..] == [];
  }

  lemma {:induction false} Counts(x: string, rounds: nat, st: State)
    requires Identifier(x) && |x| <= NAME_MAX && 0 <= Value(x, st.env) && Value(x, st.env) + rounds <= 10000
    requires rounds > 0 && (x in st.env || |st.env| < 32)
    ensures var c := Counting(x);
            DoLoop(c.test, c.actions, rounds, st)
            == Outcome(State(st.env[x := Value(x, st.env) + rounds], st.out), true)
    decreases rounds
  {
    CountOne(x, st);
    var k := Value(x, st.env) + 1;
    var st' := State(st.env[x := k], st.out);
    LoopRound(Counting(x).test, Counting(x).actions, rounds, st, Outcome(st', true));
    if rounds > 1 {
      Counts(x, rounds - 1, st');
      assert st'.env[x := k + (rounds - 1)] == st.env[x := k - 1 + rounds];
    }
  }

  /** A loop whose condition always holds is left, without complaint, after exactly 10000 rounds. */
  lemma LoopGivesUp(x: string, st: State)
    requires Identifier(x) && |x| <= NAME_MAX && x !in st.env && |st.env| < 32
    ensures WfCommands(Chain(Counting(x), Done))
    ensures DoCommands(Chain(Counting(x), Done), st) == Outcome(State(st.env[x := 10000], st.out), true)
  {
    OneIs(st.env);
    LeafIs(ONE, NAME_MAX, st.env);
    SuccessorIs(x, st.env);
    Counts(x, 10000, st);
  }

  // ---- a block inside a loop ----

  /** The head of a block is not a line of its own. */
  lemma HeadFails(w: string, word: string, w1: string, t: Test, st: State)
    requires Blank(w) && word in {"if", "while"} && Blank(w1) && w1 != "" && WfTest(t)
    ensures DoLine(w + (word + (w1 + TestText(t))), st) == Fail(st, SyntaxError)
  {
    TestStarts(t);
    var x := TestText(t);
    var p := word + (w1 + x);
    BlanksOf(w, p);
    assert p[0] == word[0];
    NameOf(word, w1 + x, NAME_MAX);
    BlanksOf(w1, x);
    TestNoAssign(t);
  }

  lemma TestNoAssign(t: Test)
    requires WfTest(t)
    ensures TestText(t) != "" && TestText(t)[0] != '='
  {
    match t
    case Relation(l, wl, op, r, wr) => SignlessE(l, NAME_MAX);
    case NonZero(e, ws) => SignlessE(e, NAME_MAX);
  }

  /** A loop whose body has a block in it stops there with a syntax error in the first round that gets so far. */
  lemma NestedLoop(t: Test, pre: seq<Action>, w: string, word: string, w1: string, inner: Test, post: seq<string>,
                   rounds: nat, st: State)
    requires WfTest(t) && (forall a :: a in pre ==> WfAction(a)) && rounds > 0
    requires Blank(w) && word in {"if", "while"} && Blank(w1) && w1 != "" && WfTest(inner)
    requires TestHolds(t, st.env) == Some(true)
    ensures var r := DoActions(pre, st);
            Repeat(TestText(t), ActionLines(pre) + ([w + (word + (w1 + TestText(inner)))] + post), rounds, st) ==
            if r.ok then Fail(r.st, SyntaxError) else r
  {
    var h := w + (word + (w1 + TestText(inner)));
    TestMeans(t, st.env);
    ActionsMean(pre, st);
    LinesConcat(ActionLines(pre), [h] + post, st);
    HeadFails(w, word, w1, inner, DoActions(pre, st).st);
  }

  lemma {:induction false} LinesConcat(a: seq<string>, b: seq<string>, st: State)
    ensures DoLines(a + b, st) == var r := DoLines(a, st); if r.ok then DoLines(b, r.st) else r
    decreases |a|
  {
    if a == [] {
      assert a + b == b;
    } else {
      assert (a + b)[1..] == a[1..] + b;
      var r := DoLine(a[0], st);
      if r.ok {
        LinesConcat(a[1..], b, r.st);
      }
    }
  }
}
