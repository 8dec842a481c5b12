/** The MyLang interpreter: it runs a script line by line over its table of variables and its output. */
module MyLangInterpreter {
  import opened Grammar
  import opened Calculator
  import opened MyLangExpand
  import opened MyLangLines
  import opened MyLangScript
  import opened MyLangVars

  function Backwards(t: string): string {
    if t == "" then "" else [t[|t| - 1]] + Backwards(t[..|t| - 1])
  }

  lemma {:induction false} BackwardsAdd(t: string, c: char)
    ensures Backwards(t + [c]) == [c] + Backwards(t)
  {
    assert (t + [c])[..|t|] == t;
  }

  function Higher(u: nat): string {
    if u == 0 then "" else NatText(u)
  }

  lemma DigitStep(u: nat, t: string)
    requires u > 0
    ensures Higher(u) + Backwards(t) == Higher(u / 10) + Backwards(t + [(u % 10) as char + '0'])
  {
    BackwardsAdd(t, (u % 10) as char + '0');
  }

  /** The decimal digits of a number, lowest first. */
  method DigitsOfNumber(n: nat) returns (t: string)
    ensures Backwards(t) == NatText(n)
  {
    var u: nat := n;
    if u == 0 {
      BackwardsAdd("", '0');
      return "0";
    }
    t := "";
    while u > 0
      invariant Higher(n) == Higher(u) + Backwards(t)
    {
      DigitStep(u, t);
      t := t + [(u % 10) as char + '0'];
      u := u / 10;
    }
  }

  /** r is the expansion of the first p characters. */
  ghost predicate Expanded(expr: string, env: Env, p: nat, r: string)
    requires p <= |expr|
  {
    Expand(expr, env) == r + Expand(expr[p..], env)
  }

  lemma Advance(expr: string, env: Env, p: nat, r: string, k: nat, piece: string)
    requires p + k <= |expr| && Expanded(expr, env, p, r)
    requires Expand(expr[p..], env) == piece + Expand(expr[p + k..], env)
    ensures Expanded(expr, env, p + k, r + piece)
  {
    Glue(r, piece, Expand(expr[p + k..], env));
  }

  lemma AtName(expr: string, env: Env, p: nat)
    requires p < |expr| && IsIdentStart(expr[p])
    ensures var n := Name(expr[p..], NAME_MAX);
            n != "" && Expand(expr[p..], env) == NumberText(Value(n, env)) + Expand(expr[p + |n|..], env)
  {
    NameStarts(expr[p..]);
    NameSlice(expr, p);
  }

  lemma NameSlice(s: string, p: nat)
    requires p <= |s|
    ensures var n := Name(s[p..], NAME_MAX); AfterName(s[p..], NAME_MAX) == s[p + |n|..]
  {
    AfterNameIs(s[p..], NAME_MAX);
  }

  lemma {:induction false} AfterNameIs(s: string, limit: nat)
    ensures AfterName(s, limit) == s[|Name(s, limit)|..]
  {
    if s != "" && IsIdent(s[0]) && limit > 0 {
      AfterNameIs(s[1..], limit - 1);
    }
  }

  lemma AtChar(expr: string, env: Env, p: nat)
    requires p < |expr| && !IsIdentStart(expr[p])
    ensures Expand(expr[p..], env) == [expr[p]] + Expand(expr[p + 1..], env)
  {
    assert expr[p..][1..] == expr[p + 1..];
  }

  lemma ExpandedEnds(expr: string, env: Env, p: nat, r: string)
    requires p <= |expr| && Expanded(expr, env, p, r)
    ensures |r| <= |Expand(expr, env)| && (p == |expr| ==> r == Expand(expr, env))
  {
  }

  // What is still to do, in each of the loops below.

  ghost predicate SplitLeft(text: string, lines: seq<string>, rest: string)
    requires |lines| <= MAX_LINES
  {
    Split(text, MAX_LINES) == lines + Split(rest, MAX_LINES - |lines|)
  }

  lemma SplitStart(text: string)
    ensures SplitLeft(text, [], text)
  {
    FromNothing(Split(text, MAX_LINES));
  }

  lemma FromNothing(ls: seq<string>)
    ensures [] + ls == ls
  {
  }

  lemma SplitNext(text: string, lines: seq<string>, rest: string)
    requires |lines| < MAX_LINES && rest != "" && SplitLeft(text, lines, rest)
    ensures var l := FirstLine(rest, LINE); SplitLeft(text, lines + [l], AfterLine(rest))
  {
    var l := FirstLine(rest, LINE);
    SplitFirst(rest, MAX_LINES - |lines|);
    Append(lines, l, Split(AfterLine(rest), MAX_LINES - |lines| - 1));
  }

  lemma SplitFirst(rest: string, room: nat)
    requires room > 0 && rest != ""
    ensures var l := FirstLine(rest, LINE); Split(rest, room) == [l] + Split(AfterLine(rest), room - 1)
  {
  }

  lemma Append(a: seq<string>, l: string, b: seq<string>)
    ensures a + ([l] + b) == (a + [l]) + b
  {
  }

  lemma SplitDone(text: string, lines: seq<string>, rest: string)
    requires |lines| <= MAX_LINES && (rest == "" || |lines| == MAX_LINES) && SplitLeft(text, lines, rest)
    ensures Split(text, MAX_LINES) == lines
  {
  }

  ghost predicate LinesLeft(all: seq<string>, st: State, ls: seq<string>, now: State) {
    DoLines(all, st) == DoLines(ls, now)
  }

  lemma LinesNext(all: seq<string>, st: State, ls: seq<string>, now: State)
    requires LinesLeft(all, st, ls, now)
    ensures ls == [] ==> DoLines(all, st) == Outcome(now, true)
    ensures ls != [] ==>
              var r := DoLine(ls[0], now);
              if r.ok then LinesLeft(all, st, ls[1..], r.st) else DoLines(all, st) == r
  {
  }

  ghost predicate RoundsLeft(cond: string, body: seq<string>, all: nat, st: State, rounds: nat, now: State) {
    Repeat(cond, body, all, st) == Repeat(cond, body, rounds, now)
  }

  lemma RoundsNext(cond: string, body: seq<string>, all: nat, st: State, rounds: nat, now: State)
    requires RoundsLeft(cond, body, all, st, rounds, now)
    ensures rounds == 0 ==> Repeat(cond, body, all, st) == Outcome(now, true)
    ensures rounds > 0 ==>
      match Holds(cond, now.env)
      case None => Repeat(cond, body, all, st) == Fail(now, BadCondition)
      case Some(false) => Repeat(cond, body, all, st) == Outcome(now, true)
      case Some(true) =>
        var r := DoLines(body, now);
        if r.ok then RoundsLeft(cond, body, all, st, rounds - 1, r.st) else Repeat(cond, body, all, st) == r
  {
  }

  ghost predicate BodyLeft(all: seq<string>, st: State, ls: seq<string>, now: State) {
    RunBody(all, st) == RunBody(ls, now)
  }

  lemma BodyNext(all: seq<string>, st: State, ls: seq<string>, now: State)
    requires BodyLeft(all, st, ls, now)
    ensures ls == [] ==> RunBody(all, st) == Outcome(now, true)
    ensures ls != [] ==>
      if IsIf(Skip(ls[0])) || SaysWhile(Skip(ls[0])) then RunBody(all, st) == Run(ls, now)
      else var r := DoLine(ls[0], now); if r.ok then BodyLeft(all, st, ls[1..], r.st) else RunBody(all, st) == r
  {
  }

  /** The script from line pc on comes to the outcome o and, if that is good, to the lines from `next` on. */
  ghost predicate Leads(lines: seq<string>, pc: nat, st: State, o: Outcome, next: nat)
    requires pc <= |lines| && next <= |lines|
  {
    Run(lines[pc..], st) == Next(o, lines[next..])
  }

  /** The block opened on line pc is closed on line `end`, or nowhere if that is negative. */
  ghost predicate EndsAt(lines: seq<string>, pc: nat, end: int) {
    && pc < |lines| && (end >= 0 ==> pc < end < |lines|)
    && MatchingEnd(lines[pc + 1..], 1) == if end <= pc then None else Some(end - pc - 1)
  }

  ghost predicate SearchLeft(lines: seq<string>, pc: nat, k: nat, depth: nat)
    requires pc < k <= |lines| && depth > 0
  {
    MatchingEnd(lines[pc + 1..], 1) == Further(MatchingEnd(lines[k..], depth), k - pc - 1)
  }

  lemma SearchNext(lines: seq<string>, pc: nat, k: nat, depth: nat)
    requires pc < k < |lines| && depth > 0 && SearchLeft(lines, pc, k, depth)
    ensures if Opens(lines[k]) then SearchLeft(lines, pc, k + 1, depth + 1)
            else if !Closes(lines[k]) then SearchLeft(lines, pc, k + 1, depth)
            else if depth == 1 then EndsAt(lines, pc, k)
            else SearchLeft(lines, pc, k + 1, depth - 1)
  {
    AtLine(lines, k);
  }

  lemma SearchDone(lines: seq<string>, pc: nat, depth: nat)
    requires pc < |lines| && depth > 0 && SearchLeft(lines, pc, |lines|, depth)
    ensures EndsAt(lines, pc, -1)
  {
  }

  lemma IfBad(lines: seq<string>, pc: nat, st: State)
    requires pc < |lines| && IsIf(Skip(lines[pc])) && Holds(Condition(lines[pc]), st.env).None?
    ensures Leads(lines, pc, st, Fail(st, BadCondition), pc + 1)
  {
    assert lines[pc..][0] == lines[pc];
  }

  lemma IfOpen(lines: seq<string>, pc: nat, st: State)
    requires pc < |lines| && IsIf(Skip(lines[pc])) && Holds(Condition(lines[pc]), st.env).Some? && EndsAt(lines, pc, -1)
    ensures Leads(lines, pc, st, Fail(st, IfWithoutEnd), pc + 1)
  {
    AtLine(lines, pc);
  }

  lemma IfClosed(lines: seq<string>, pc: nat, end: nat, st: State, o: Outcome)
    requires EndsAt(lines, pc, end) && IsIf(Skip(lines[pc])) && Holds(Condition(lines[pc]), st.env).Some?
    requires o == if Holds(Condition(lines[pc]), st.env).value then RunBody(lines[pc + 1..end], st)
                  else Outcome(st, true)
    ensures Leads(lines, pc, st, o, end + 1)
  {
    Decompose(lines, pc, end);
    RunIf(lines[pc], lines[pc + 1..end], lines[end], lines[end + 1..], st);
  }

  lemma WhileOpen(lines: seq<string>, pc: nat, st: State)
    requires pc < |lines| && IsWhile(Skip(lines[pc])) && EndsAt(lines, pc, -1)
    ensures Leads(lines, pc, st, Fail(st, WhileWithoutEnd), pc + 1)
  {
    AtLine(lines, pc);
  }

  lemma WhileClosed(lines: seq<string>, pc: nat, end: nat, st: State)
    requires EndsAt(lines, pc, end) && IsWhile(Skip(lines[pc]))
    ensures Leads(lines, pc, st, Repeat(Condition(lines[pc]), lines[pc + 1..end], ROUNDS, st), end + 1)
  {
    Decompose(lines, pc, end);
    RunWhile(lines[pc], lines[pc + 1..end], lines[end], lines[end + 1..], st);
  }

  lemma RunLineAt(lines: seq<string>, pc: nat, st: State)
    requires pc < |lines| && !Opens(lines[pc])
    ensures Leads(lines, pc, st, if Closes(lines[pc]) then Fail(st, UnexpectedEnd) else DoLine(lines[pc], st), pc + 1)
  {
    AtLine(lines, pc);
  }

  lemma RunOn(lines: seq<string>, st: State, pc: nat, now: State, o: Outcome, next: nat)
    requires pc <= |lines| && next <= |lines|
    requires Leads(lines, 0, st, Outcome(now, true), pc) && Leads(lines, pc, now, o, next)
    ensures Leads(lines, 0, st, o, next)
  {
  }

  lemma RunDone(lines: seq<string>, st: State, o: Outcome, pc: nat)
    requires pc <= |lines| && Leads(lines, 0, st, o, pc) && (o.ok ==> pc == |lines|)
    ensures Run(lines, st) == o
  {
    assert lines[0..] == lines;
  }

  lemma AtLine(lines: seq<string>, pc: nat)
    requires pc < |lines|
    ensures lines[pc..][0] == lines[pc] && lines[pc..][1..] == lines[pc + 1..]
  {
  }

  lemma Decompose(lines: seq<string>, pc: nat, end: nat)
    requires pc < end < |lines|
    ensures var b, rest := lines[pc + 1..end], lines[end + 1..];
            lines[pc..] == [lines[pc]] + (b + [lines[end]]) + rest && lines[pc + 1..] == b + ([lines[end]] + rest)
  {
  }

  class Interpreter {
    const vars: Variables
    var out: seq<Output>

    ghost predicate Valid()
      reads this, vars, vars.slots
    {
      vars.Valid()
    }

    ghost function Now(): State
      reads this, vars
    {
      State(vars.env, out)
    }

    constructor ()
      ensures Valid() && fresh(vars) && fresh(vars.slots) && Now() == State(map[], [])
    {
      vars := new Variables();
      out := [];
    }

    /** Appends t's characters, last first, while the buffer has room. */
    method Emit(buffer: string, t: string) returns (ok: bool, r: string)
      requires |buffer| <= BUFFER
      ensures ok <==> |buffer| + |Backwards(t)| <= BUFFER
      ensures ok ==> r == buffer + Backwards(t)
    {
      r := buffer;
      var k := |t|;
      assert t[..k] == t;
      while k > 0
        invariant 0 <= k <= |t| && |r| <= BUFFER
        invariant buffer + Backwards(t) == r + Backwards(t[..k])
      {
        k := k - 1;
        assert t[..k + 1][..k] == t[..k];
        if |r| >= BUFFER {
          return false, r;
        }
        r := r + [t[k]];
      }
      assert t[..0] == "";
      return true, r;
    }

    method EmitNatural(buffer: string, n: nat) returns (ok: bool, r: string)
      requires |buffer| <= BUFFER
      ensures ok <==> |buffer| + |NatText(n)| <= BUFFER
      ensures ok ==> r == buffer + NatText(n)
    {
      var t := DigitsOfNumber(n);
      ok, r := Emit(buffer, t);
    }

    method EmitNumber(buffer: string, v: int) returns (ok: bool, r: string)
      requires |buffer| <= BUFFER
      ensures ok <==> |buffer| + |NumberText(v)| <= BUFFER
      ensures ok ==> r == buffer + NumberText(v)
    {
      if v >= 0 {
        ok, r := EmitNatural(buffer, v);
      } else if |buffer| >= BUFFER {
        ok, r := false, buffer;
      } else {
        ok, r := EmitNatural(buffer + "-", -v);
        Glue(buffer, "-", NatText(-v));
      }
    }

    /** Reads a name of at most NAME_MAX characters at position p. */
    method ReadName(s: string, p: nat) returns (name: string)
      requires p <= |s|
      ensures name == Name(s[p..], NAME_MAX)
    {
      var q := p;
      while q < |s| && IsIdent(s[q]) && q - p < NAME_MAX
        invariant p <= q <= |s| && q - p <= NAME_MAX
        invariant forall i :: p <= i < q ==> IsIdent(s[i])
      {
        q := q + 1;
      }
      NameEnd(s[p..], q - p, NAME_MAX);
      name := s[p..q];
    }

    method ExpandExpr(expr: string) returns (ok: bool, r: string)
      requires Valid()
      ensures ok <==> |Expand(expr, vars.env)| <= BUFFER
      ensures ok ==> r == Expand(expr, vars.env)
    {
      r := "";
      ok := true;
      var p := 0;
      assert expr[0..] == expr;
      while p < |expr|
        invariant 0 <= p <= |expr| && |r| <= BUFFER
        invariant Expanded(expr, vars.env, p, r)
        decreases |expr| - p
      {
        ok, p, r := ExpandStep(expr, p, r);
        if !ok {
          return;
        }
      }
      ExpandedEnds(expr, vars.env, p, r);
    }

    /** Replaces the name at position p by its value, or copies the character there. */
    method ExpandStep(expr: string, p: nat, r: string) returns (ok: bool, p': nat, r': string)
      requires Valid() && p < |expr| && |r| <= BUFFER && Expanded(expr, vars.env, p, r)
      ensures p < p' <= |expr|
      ensures ok ==> |r'| <= BUFFER && Expanded(expr, vars.env, p', r')
      ensures !ok ==> |Expand(expr, vars.env)| > BUFFER
    {
      if IsIdentStart(expr[p]) {
        var name := ReadName(expr, p);
        AtName(expr, vars.env, p);
        var k := vars.Find(name);
        var v := if k >= 0 then vars.slots[k].value else 0;
        assert v == Value(name, vars.env);
        p' := p + |name|;
        Advance(expr, vars.env, p, r, |name|, NumberText(v));
        ExpandedEnds(expr, vars.env, p', r + NumberText(v));
        ok, r' := EmitNumber(r, v);
      } else {
        AtChar(expr, vars.env, p);
        p' := p + 1;
        Advance(expr, vars.env, p, r, 1, [expr[p]]);
        ExpandedEnds(expr, vars.env, p', r + [expr[p]]);
        ok, r' := |r| < BUFFER, r + [expr[p]];
      }
    }

    method EvalExpr(expr: string) returns (ok: bool, v: int)
      requires Valid()
      ensures EvalText(expr, vars.env) == if ok then Some(v) else None
    {
      var text;
      ok, text := ExpandExpr(expr);
      if !ok {
        return false, 0;
      }
      var error;
      v, error := CalcEval(text);
      ok := !error;
    }

    method EvalCondition(cond: string) returns (ok: bool, result: bool)
      requires Valid()
      ensures Holds(cond, vars.env) == if ok then Some(result) else None
    {
      var p := Skip(cond);
      var q := FindSign(p);
      if q == |p| {
        var v;
        ok, v := EvalExpr(p);
        return ok, v != 0;
      }
      var op := SignAt(p, q).value;
      ok, result := EvalSides(Cut(p[..q]), op, Cut(p[q + |Sign(op)|..]));
    }

    method EvalSides(left: string, op: Comparison, right: string) returns (ok: bool, result: bool)
      requires Valid()
      ensures (if ok then Some(result) else None) ==
              match (EvalText(left, vars.env), EvalText(right, vars.env))
              case (Some(a), Some(b)) => Some(Compare(op, a, b))
              case (_, _) => None
    {
      var a, b;
      ok, a := EvalExpr(left);
      if !ok {
        return false, false;
      }
      ok, b := EvalExpr(right);
      return ok, Compare(op, a, b);
    }

    method FindSign(p: string) returns (q: nat)
      ensures q == FirstSign(p, 0)
    {
      q := 0;
      while q < |p| && SignAt(p, q).None?
        invariant 0 <= q <= |p| && forall j :: 0 <= j < q ==> SignAt(p, j).None?
      {
        q := q + 1;
      }
    }

    method Complain(what: Trouble)
      modifies this`out
      ensures Outcome(Now(), false) == Fail(old(Now()), what)
    {
      out := out + [Complaint(what)];
    }

    method ExecLine(line: string) returns (ok: bool)
      requires Valid()
      modifies this`out, vars`env, vars.slots
      ensures Valid() && Outcome(Now(), ok) == DoLine(line, old(Now()))
    {
      var p := Skip(line);
      if p == "" || p[0] == '#' {
        return true;
      }
      if IsPrint(p) {
        ok := ExecPrint(Skip(p[5..]));
        return;
      }
      if IsIdentStart(p[0]) {
        var name := ReadName(p, 0);
        assert p[0..] == p;
        AfterNameIs(p, NAME_MAX);
        var q := Skip(p[|name|..]);
        if q != "" && q[0] == '=' {
          ok := ExecAssign(name, Skip(q[1..]));
          return;
        }
      }
      Complain(SyntaxError);
      return false;
    }

    method ExecPrint(arg: string) returns (ok: bool)
      requires Valid()
      modifies this`out
      ensures Valid() && Outcome(Now(), ok) == Print(arg, old(Now()))
    {
      if arg != "" && arg[0] == '"' {
        out := out + [Said(UpTo(arg[1..], '"'))];
        return true;
      }
      var v;
      ok, v := EvalExpr(arg);
      if !ok {
        Complain(BadExpression);
      } else {
        out := out + [Shown(v)];
      }
    }

    method ExecAssign(name: string, text: string) returns (ok: bool)
      requires Valid() && |name| <= NAME_MAX
      modifies this`out, vars`env, vars.slots
      ensures Valid() && Outcome(Now(), ok) == Assign(name, text, old(Now()))
    {
      var v;
      ok, v := EvalExpr(text);
      if !ok {
        Complain(BadExpression);
        return;
      }
      ok := vars.Set(name, v);
      if !ok {
        Complain(TooManyVariables);
      }
    }

    // ---- blocks ----

    /** The lines of the text, read off one by one. */
    method SplitText(text: string) returns (lines: seq<string>)
      ensures lines == Split(text, MAX_LINES)
    {
      lines := [];
      var rest := text;
      SplitStart(text);
      while rest != "" && |lines| < MAX_LINES
        invariant |lines| <= MAX_LINES && SplitLeft(text, lines, rest)
        decreases MAX_LINES - |lines|
      {
        var l := FirstLine(rest, LINE);
        SplitNext(text, lines, rest);
        rest := AfterLine(rest);
        lines := lines + [l];
      }
      SplitDone(text, lines, rest);
    }

    /** Where the block opened on line pc ends, or -1. */
    method FindEnd(lines: seq<string>, pc: nat) returns (end: int)
      requires pc < |lines|
      ensures end >= -1 && EndsAt(lines, pc, end)
    {
      end := pc + 1;
      var depth := 1;
      while end < |lines|
        invariant pc < end <= |lines| && depth > 0
        invariant SearchLeft(lines, pc, end, depth)
      {
        SearchNext(lines, pc, end, depth);
        if Opens(lines[end]) {
          depth := depth + 1;
        } else if Closes(lines[end]) {
          depth := depth - 1;
          if depth == 0 {
            return;
          }
        }
        end := end + 1;
      }
      SearchDone(lines, pc, depth);
      return -1;
    }

    /** Some lines in a row, whatever they look like. */
    method ExecLines(lines: seq<string>, a: nat, b: nat) returns (ok: bool)
      requires Valid() && a <= b <= |lines|
      modifies this`out, vars`env, vars.slots
      ensures Valid() && Outcome(Now(), ok) == DoLines(lines[a..b], old(Now()))
    {
      var k := a;
      while k < b
        invariant Valid() && a <= k <= b
        invariant LinesLeft(lines[a..b], old(Now()), lines[k..b], Now())
      {
        LinesNext(lines[a..b], old(Now()), lines[k..b], Now());
        assert lines[k..b][1..] == lines[k + 1..b];
        ok := ExecLine(lines[k]);
        if !ok {
          return;
        }
        k := k + 1;
      }
      LinesNext(lines[a..b], old(Now()), lines[k..b], Now());
      return true;
    }

    method ExecWhile(cond: string, lines: seq<string>, a: nat, b: nat) returns (ok: bool)
      requires Valid() && a <= b <= |lines|
      modifies this`out, vars`env, vars.slots
      ensures Valid() && Outcome(Now(), ok) == Repeat(cond, lines[a..b], ROUNDS, old(Now()))
    {
      var iter := 0;
      while iter < ROUNDS
        invariant Valid() && 0 <= iter <= ROUNDS
        invariant RoundsLeft(cond, lines[a..b], ROUNDS, old(Now()), ROUNDS - iter, Now())
      {
        RoundsNext(cond, lines[a..b], ROUNDS, old(Now()), ROUNDS - iter, Now());
        var holds;
        ok, holds := EvalCondition(cond);
        if !ok {
          Complain(BadCondition);
          return;
        }
        if !holds {
          return true;
        }
        ok := ExecLines(lines, a, b);
        if !ok {
          return;
        }
        iter := iter + 1;
      }
      RoundsNext(cond, lines[a..b], ROUNDS, old(Now()), 0, Now());
      return true;
    }

    /** The lines from a to b as a script of their own; the buffer always holds them all. */
    method Rebuild(lines: seq<string>, a: nat, b: nat) returns (sub: string)
      requires a <= b <= |lines| && b - a < MAX_LINES && AllLines(lines)
      ensures sub == Join(lines[a..b])
    {
      sub := "";
      var m := a;
      while m < b
        invariant a <= m <= b && sub == Join(lines[a..m]) && |sub| <= 128 * (m - a)
      {
        if |sub| + |lines[m]| + 2 >= MAX_LINES * (LINE + 1) {
          assert false;
        }
        JoinAdd(lines[a..m], lines[m]);
        assert lines[a..m] + [lines[m]] == lines[a..m + 1];
        sub := sub + lines[m] + "\n";
        m := m + 1;
      }
    }

    method ExecIfBody(lines: seq<string>, a: nat, b: nat) returns (ok: bool)
      requires Valid() && a <= b <= |lines| && b - a < MAX_LINES && AllLines(lines)
      modifies this`out, vars`env, vars.slots
      ensures Valid() && Outcome(Now(), ok) == RunBody(lines[a..b], old(Now()))
      decreases b - a, 2
    {
      var k := a;
      while k < b
        invariant Valid() && a <= k <= b
        invariant BodyLeft(lines[a..b], old(Now()), lines[k..b], Now())
      {
        BodyNext(lines[a..b], old(Now()), lines[k..b], Now());
        var t := Skip(lines[k]);
        if IsIf(t) || SaysWhile(t) {
          ok := ExecRest(lines, k, b);
          return;
        }
        assert lines[k..b][1..] == lines[k + 1..b];
        ok := ExecLine(lines[k]);
        if !ok {
          return;
        }
        k := k + 1;
      }
      BodyNext(lines[a..b], old(Now()), lines[k..b], Now());
      return true;
    }

    /** The lines from a to b, run as a script of their own. */
    method ExecRest(lines: seq<string>, a: nat, b: nat) returns (ok: bool)
      requires Valid() && a <= b <= |lines| && b - a < MAX_LINES && AllLines(lines)
      modifies this`out, vars`env, vars.slots
      ensures Valid() && Outcome(Now(), ok) == Run(lines[a..b], old(Now()))
      decreases b - a, 2, 0
    {
      var sub := Rebuild(lines, a, b);
      SplitJoin(lines[a..b], MAX_LINES);
      ok := ExecScript(sub);
    }

    /** One line, or one whole block; false ends the script. */
    method ExecStatement(lines: seq<string>, pc: nat) returns (ok: bool, next: nat)
      requires Valid() && pc < |lines| <= MAX_LINES && AllLines(lines)
      modifies this`out, vars`env, vars.slots
      ensures Valid() && pc < next <= |lines|
      ensures Leads(lines, pc, old(Now()), Outcome(Now(), ok), next)
      decreases |lines|, 0
    {
      next := pc + 1;
      var p := Skip(lines[pc]);
      if !IsIf(p) && !IsWhile(p) {
        RunLineAt(lines, pc, Now());
      }
      if p == "" || p[0] == '#' {
        return true, next;
      }
      if p == "end" {
        Complain(UnexpectedEnd);
        return false, next;
      }
      if IsIf(p) {
        ok, next := ExecIf(lines, pc);
        return;
      }
      if IsWhile(p) {
        ok, next := ExecWhileBlock(lines, pc);
        return;
      }
      ok := ExecLine(lines[pc]);
    }

    method ExecIf(lines: seq<string>, pc: nat) returns (ok: bool, next: nat)
      requires Valid() && pc < |lines| <= MAX_LINES && AllLines(lines) && IsIf(Skip(lines[pc]))
      modifies this`out, vars`env, vars.slots
      ensures Valid() && pc < next <= |lines|
      ensures Leads(lines, pc, old(Now()), Outcome(Now(), ok), next)
      decreases |lines| - 1, 3
    {
      var cond := Condition(lines[pc]);
      var holds;
      ok, holds := EvalCondition(cond);
      if ok {
        ok, next := ExecIfKnown(lines, pc, cond, holds);
      } else {
        next := pc + 1;
        IfBad(lines, pc, Now());
        Complain(BadCondition);
      }
    }

    method ExecIfKnown(lines: seq<string>, pc: nat, ghost cond: string, holds: bool) returns (ok: bool, next: nat)
      requires Valid() && pc < |lines| <= MAX_LINES && AllLines(lines) && IsIf(Skip(lines[pc]))
      requires cond == Condition(lines[pc]) && Holds(cond, vars.env) == Some(holds)
      modifies this`out, vars`env, vars.slots
      ensures Valid() && pc < next <= |lines|
      ensures Leads(lines, pc, old(Now()), Outcome(Now(), ok), next)
      decreases |lines| - 1, 2
    {
      var end := FindEnd(lines, pc);
      if end < 0 {
        ok, next := false, pc + 1;
        IfOpen(lines, pc, Now());
        Complain(IfWithoutEnd);
      } else {
        next := end + 1;
        ok := ExecIfClosed(lines, pc, end, holds);
      }
    }

    method ExecIfClosed(lines: seq<string>, pc: nat, end: nat, holds: bool) returns (ok: bool)
      requires Valid() && |lines| <= MAX_LINES && AllLines(lines) && EndsAt(lines, pc, end)
      requires IsIf(Skip(lines[pc])) && Holds(Condition(lines[pc]), vars.env) == Some(holds)
      modifies this`out, vars`env, vars.slots
      ensures Valid() && Leads(lines, pc, old(Now()), Outcome(Now(), ok), end + 1)
      decreases |lines| - 1, 1
    {
      ok := true;
      if holds {
        ok := ExecIfBody(lines, pc + 1, end);
      }
      IfClosed(lines, pc, end, old(Now()), Outcome(Now(), ok));
    }

    method ExecWhileBlock(lines: seq<string>, pc: nat) returns (ok: bool, next: nat)
      requires Valid() && pc < |lines| && IsWhile(Skip(lines[pc]))
      modifies this`out, vars`env, vars.slots
      ensures Valid() && pc < next <= |lines|
      ensures Leads(lines, pc, old(Now()), Outcome(Now(), ok), next)
    {
      var end := FindEnd(lines, pc);
      if end < 0 {
        ok, next := false, pc + 1;
        WhileOpen(lines, pc, Now());
        Complain(WhileWithoutEnd);
      } else {
        next := end + 1;
        ok := ExecWhileClosed(lines, pc, end);
      }
    }

    method ExecWhileClosed(lines: seq<string>, pc: nat, end: nat) returns (ok: bool)
      requires Valid() && EndsAt(lines, pc, end) && IsWhile(Skip(lines[pc]))
      modifies this`out, vars`env, vars.slots
      ensures Valid() && Leads(lines, pc, old(Now()), Outcome(Now(), ok), end + 1)
    {
      WhileClosed(lines, pc, end, Now());
      ok := ExecWhile(Condition(lines[pc]), lines, pc + 1, end);
    }

    method ExecScript(text: string) returns (ok: bool)
      requires Valid()
      modifies this`out, vars`env, vars.slots
      ensures Valid() && Outcome(Now(), ok) == Run(Split(text, 64), old(Now()))
      decreases |Split(text, MAX_LINES)|, 1
    {
      var lines := SplitText(text);
      var pc := 0;
      while pc < |lines|
        invariant Valid() && 0 <= pc <= |lines|
        invariant Leads(lines, 0, old(Now()), Outcome(Now(), true), pc)
      {
        ghost var pc0, now := pc, Now();
        ok, pc := ExecStatement(lines, pc);
        RunOn(lines, old(Now()), pc0, now, Outcome(Now(), ok), pc);
        if !ok {
          RunDone(lines, old(Now()), Outcome(Now(), ok), pc);
          return;
        }
      }
      RunDone(lines, old(Now()), Outcome(Now(), true), pc);
      return true;
    }

    /** Executing the text of a program does what the program means, whatever the variables and the output so far. */
    method ExecProgram(p: Program) returns (ok: bool)
      requires Valid() && WfProgram(p) && |Lines(p)| <= MAX_LINES && AllLines(Lines(p))
      modifies this`out, vars`env, vars.slots
      ensures Valid() && Outcome(Now(), ok) == Means(p, old(Now()))
    {
      ScriptMeans(p, Now());
      ok := ExecScript(Join(Lines(p)));
    }
  }

  lemma {:induction false} JoinAdd(ls: seq<string>, l: string)
    ensures Join(ls + [l]) == Join(ls) + l + "\n"
  {
    if ls == [] {
      assert ls + [l] == [l];
    } else {
      JoinAdd(ls[1..], l);
      assert (ls + [l])[1..] == ls[1..] + [l];
    }
  }
}
