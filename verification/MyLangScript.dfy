/** Whole scripts: the line-by-line execution, the programs it stands for, and that the two agree. */
module MyLangScript {
  import opened Grammar
  import opened MyLangLines

  const MAX_LINES: nat := 64
  const LINE: nat := 127      // MAX_LINE leaves one cell for the terminator
  const ROUNDS: nat := 10000

  // ---- text and lines ----

  /** The front of text up to a newline, cut at `limit` characters. */
  function FirstLine(text: string, limit: nat): (l: string)
    ensures |l| <= |text| && |l| <= limit && '\n' !in l
  {
    if text == "" || text[0] == '\n' || limit == 0 then "" else [text[0]] + FirstLine(text[1..], limit - 1)
  }

  function AfterFirst(text: string, limit: nat): (r: string)
    ensures |r| == |text| - |FirstLine(text, limit)|
  {
    if text == "" || text[0] == '\n' || limit == 0 then text else AfterFirst(text[1..], limit - 1)
  }

  /** What is left after the first line and the newline that may end it. */
  function AfterLine(text: string): string {
    var rest := AfterFirst(text, LINE);
    if rest != "" && rest[0] == '\n' then rest[1..] else rest
  }

  predicate IsLine(l: string) {
    |l| <= LINE && '\n' !in l
  }

  predicate AllLines(ls: seq<string>) {
    forall i :: 0 <= i < |ls| ==> IsLine(ls[i])
  }

  function Split(text: string, room: nat): (ls: seq<string>)
    ensures |ls| <= room && AllLines(ls)
    decreases room
  {
    if text == "" || room == 0 then []
    else
      [FirstLine(text, LINE)] + Split(AfterLine(text), room - 1)
  }

  function Join(ls: seq<string>): string {
    if ls == [] then "" else ls[0] + "\n" + Join(ls[1..])
  }

  lemma {:induction false} FirstLineOf(l: string, rest: string, limit: nat)
    requires |l| <= limit && '\n' !in l && (rest == "" || rest[0] == '\n')
    ensures FirstLine(l + rest, limit) == l && AfterFirst(l + rest, limit) == rest
  {
    if l == "" {
      assert l + rest == rest;
    } else {
      FirstLineOf(l[1..], rest, limit - 1);
      assert (l + rest)[1..] == l[1..] + rest;
    }
  }

  lemma OneLine(l: string, rest: string)
    requires IsLine(l)
    ensures var text := l + "\n" + rest; text != "" && FirstLine(text, LINE) == l && AfterLine(text) == rest
  {
    var text, tail := l + "\n" + rest, "\n" + rest;
    assert text == l + tail;
    FirstLineOf(l, tail, LINE);
    assert tail[1..] == rest;
  }

  /** Splitting undoes joining exactly if there is room for the lines and none is too long or has a newline in it. */
  lemma {:induction false} SplitJoin(ls: seq<string>, room: nat)
    ensures Split(Join(ls), room) == ls <==>
            |ls| <= room && forall i :: 0 <= i < |ls| ==> |ls[i]| <= 127 && '\n' !in ls[i]
  {
    if ls != [] && |ls| <= room && AllLines(ls) {
      SplitJoin(ls[1..], room - 1);
      SplitStep(ls[0], ls[1..], room);
      assert [ls[0]] + ls[1..] == ls;
    }
  }

  lemma SplitStep(l: string, more: seq<string>, room: nat)
    requires IsLine(l) && room > 0 && Split(Join(more), room - 1) == more
    ensures Split(Join([l] + more), room) == [l] + more
  {
    OneLine(l, Join(more));
    assert ([l] + more)[1..] == more;
  }

  // ---- block structure ----

  predicate IsIf(p: string) {
    At(p, 0) == 'i' && At(p, 1) == 'f' && IsBlank(At(p, 2))
  }

  predicate SaysWhile(p: string) {
    At(p, 0) == 'w' && At(p, 1) == 'h' && At(p, 2) == 'i' && At(p, 3) == 'l' && At(p, 4) == 'e'
  }

  predicate IsWhile(p: string) {
    SaysWhile(p) && IsBlank(At(p, 5))
  }

  predicate Opens(line: string) {
    IsIf(Skip(line)) || IsWhile(Skip(line))
  }

  predicate Closes(line: string) {
    Skip(line) == "end"
  }

  function Further(o: Option<nat>, n: nat): Option<nat> {
    match o case None => None case Some(k) => Some(n + k)
  }

  /** How many lines come before the `end` that closes `depth` open blocks. */
  function MatchingEnd(ls: seq<string>, depth: nat): (r: Option<nat>)
    requires depth > 0
    ensures r.Some? ==> r.value < |ls|
  {
    if ls == [] then None
    else if Opens(ls[0]) then Further(MatchingEnd(ls[1..], depth + 1), 1)
    else if !Closes(ls[0]) then Further(MatchingEnd(ls[1..], depth), 1)
    else if depth == 1 then Some(0)
    else Further(MatchingEnd(ls[1..], depth - 1), 1)
  }

  // ---- line-by-line execution: mlang_exec_script ----

  ghost function DoLines(ls: seq<string>, st: State): Outcome {
    if ls == [] then Outcome(st, true)
    else
      var r := DoLine(ls[0], st);
      if r.ok then DoLines(ls[1..], r.st) else r
  }

  ghost function Repeat(cond: string, body: seq<string>, rounds: nat, st: State): Outcome {
    if rounds == 0 then Outcome(st, true)
    else
      match Holds(cond, st.env)
      case None => Fail(st, BadCondition)
      case Some(false) => Outcome(st, true)
      case Some(true) =>
        var r := DoLines(body, st);
        if r.ok then Repeat(cond, body, rounds - 1, r.st) else r
  }

  /** The condition a block's first line states. */
  function Condition(head: string): string {
    var p := Skip(head);
    if IsIf(p) then Skip(p[2..]) else if IsWhile(p) then Skip(p[5..]) else ""
  }

  ghost function Run(ls: seq<string>, st: State): Outcome
    decreases |ls|, 0
  {
    if ls == [] then Outcome(st, true)
    else if Closes(ls[0]) then Fail(st, UnexpectedEnd)
    else if IsIf(Skip(ls[0])) then
      match Holds(Condition(ls[0]), st.env)
      case None => Fail(st, BadCondition)
      case Some(c) =>
        match MatchingEnd(ls[1..], 1)
        case None => Fail(st, IfWithoutEnd)
        case Some(k) =>
          var r := if c then RunBody(ls[1..1 + k], st) else Outcome(st, true);
          if r.ok then Run(ls[k + 2..], r.st) else r
    else if IsWhile(Skip(ls[0])) then
      match MatchingEnd(ls[1..], 1)
      case None => Fail(st, WhileWithoutEnd)
      case Some(k) =>
        var r := Repeat(Condition(ls[0]), ls[1..1 + k], ROUNDS, st);
        if r.ok then Run(ls[k + 2..], r.st) else r
    else
      var r := DoLine(ls[0], st);
      if r.ok then Run(ls[1..], r.st) else r
  }

  /** The body of an if: line by line, until a line that looks like a block makes the rest a script of its own. */
  ghost function RunBody(ls: seq<string>, st: State): Outcome
    decreases |ls|, 1
  {
    if ls == [] then Outcome(st, true)
    else if IsIf(Skip(ls[0])) || SaysWhile(Skip(ls[0])) then Run(ls, st)
    else
      var r := DoLine(ls[0], st);
      if r.ok then RunBody(ls[1..], r.st) else r
  }

  // ---- structured programs ----

  datatype Stmt =
    | Simple(line: string)
    | If(head: string, body: Program, foot: string)
    | While(head: string, lines: seq<string>, foot: string)
  datatype Program = Stop | Then(first: Stmt, rest: Program)

  predicate WfStmt(s: Stmt) {
    match s
    case Simple(l) => !Opens(l) && !Closes(l)
    case If(h, b, f) => IsIf(Skip(h)) && WfProgram(b) && Closes(f)
    case While(h, b, f) => IsWhile(Skip(h)) && Closes(f) && forall l :: l in b ==> !Opens(l) && !Closes(l)
  }

  predicate WfProgram(p: Program) {
    match p
    case Stop => true
    case Then(s, r) => WfStmt(s) && WfProgram(r)
  }

  function StmtLines(s: Stmt): seq<string> {
    match s
    case Simple(l) => [l]
    case If(h, b, f) => [h] + (Lines(b) + [f])
    case While(h, b, f) => [h] + (b + [f])
  }

  function Lines(p: Program): seq<string> {
    match p
    case Stop => []
    case Then(s, r) => StmtLines(s) + Lines(r)
  }

  /** What a program does, by its structure. */
  ghost function MeansStmt(s: Stmt, st: State): Outcome {
    match s
    case Simple(l) => DoLine(l, st)
    case If(h, b, f) => (
      match Holds(Condition(h), st.env)
      case None => Fail(st, BadCondition)
      case Some(c) => if c then Means(b, st) else Outcome(st, true))
    case While(h, b, f) => Repeat(Condition(h), b, ROUNDS, st)
  }

  ghost function Means(p: Program, st: State): Outcome {
    match p
    case Stop => Outcome(st, true)
    case Then(s, r) =>
      var o := MeansStmt(s, st);
      if o.ok then Means(r, o.st) else o
  }

  // ---- the two agree ----

  lemma {:induction false} Flat(b: seq<string>, rest: seq<string>, depth: nat)
    requires depth > 0 && forall l :: l in b ==> !Opens(l) && !Closes(l)
    ensures MatchingEnd(b + rest, depth) == Further(MatchingEnd(rest, depth), |b|)
  {
    if b == [] {
      assert b + rest == rest;
    } else {
      Flat(b[1..], rest, depth);
      assert (b + rest)[1..] == b[1..] + rest;
    }
  }

  /** A program's blocks are closed, so the search for an end passes over it. */
  lemma {:induction false} Balanced(p: Program, rest: seq<string>, depth: nat)
    requires WfProgram(p) && depth > 0
    ensures MatchingEnd(Lines(p) + rest, depth) == Further(MatchingEnd(rest, depth), |Lines(p)|)
    decreases p
  {
    match p
    case Stop =>
      assert Lines(p) + rest == rest;
    case Then(s, r) =>
      Balanced(r, rest, depth);
      assert Lines(p) + rest == StmtLines(s) + (Lines(r) + rest);
      BalancedStmt(s, Lines(r) + rest, depth);
  }

  lemma {:induction false} BalancedStmt(s: Stmt, rest: seq<string>, depth: nat)
    requires WfStmt(s) && depth > 0
    ensures MatchingEnd(StmtLines(s) + rest, depth) == Further(MatchingEnd(rest, depth), |StmtLines(s)|)
    decreases s
  {
    match s
    case Simple(l) =>
      assert ([l] + rest)[1..] == rest && ([l] + rest)[0] == l;
    case If(h, b, f) =>
      Balanced(b, [f] + rest, depth + 1);
      Block(h, Lines(b), f, rest, depth);
      assert |StmtLines(s)| == |Lines(b)| + 2;
    case While(h, b, f) =>
      Flat(b, [f] + rest, depth + 1);
      Block(h, b, f, rest, depth);
      assert |StmtLines(s)| == |b| + 2;
  }

  lemma Block(h: string, b: seq<string>, f: string, rest: seq<string>, depth: nat)
    requires Opens(h) && Closes(f) && depth > 0
    requires MatchingEnd(b + ([f] + rest), depth + 1) == Further(MatchingEnd([f] + rest, depth + 1), |b|)
    ensures MatchingEnd([h] + (b + [f]) + rest, depth) == Further(MatchingEnd(rest, depth), |b| + 2)
  {
    var all := [h] + (b + [f]) + rest;
    assert all[1..] == b + ([f] + rest);
    assert ([f] + rest)[1..] == rest;
  }

  /** The lines of a block are cut out at its own end. */
  lemma Sliced(h: string, b: seq<string>, f: string, rest: seq<string>)
    ensures var all := [h] + (b + [f]) + rest;
            all[1..] == b + ([f] + rest) && all[1..1 + |b|] == b && all[|b| + 2..] == rest && all[0] == h
  {
  }

  ghost function Next(r: Outcome, rest: seq<string>): Outcome {
    if r.ok then Run(rest, r.st) else r
  }

  lemma RunIf(h: string, b: seq<string>, f: string, rest: seq<string>, st: State)
    requires IsIf(Skip(h)) && MatchingEnd(b + ([f] + rest), 1) == Some(|b|)
    ensures Run([h] + (b + [f]) + rest, st) ==
            match Holds(Condition(h), st.env)
            case None => Fail(st, BadCondition)
            case Some(c) => Next(if c then RunBody(b, st) else Outcome(st, true), rest)
  {
    Sliced(h, b, f, rest);
  }

  lemma RunWhile(h: string, b: seq<string>, f: string, rest: seq<string>, st: State)
    requires IsWhile(Skip(h)) && MatchingEnd(b + ([f] + rest), 1) == Some(|b|)
    ensures Run([h] + (b + [f]) + rest, st) == Next(Repeat(Condition(h), b, ROUNDS, st), rest)
  {
    Sliced(h, b, f, rest);
  }

  lemma RunSimple(l: string, rest: seq<string>, st: State)
    requires !Opens(l) && !Closes(l)
    ensures Run([l] + rest, st) == Next(DoLine(l, st), rest)
  {
    assert ([l] + rest)[1..] == rest;
  }

  lemma EndHere(all: seq<string>, n: nat, tail: seq<string>)
    requires tail != [] && Closes(tail[0]) && MatchingEnd(all, 1) == Further(MatchingEnd(tail, 1), n)
    ensures MatchingEnd(all, 1) == Some(n)
  {
    EndFirst(tail);
  }

  lemma EndFirst(ls: seq<string>)
    requires ls != [] && Closes(ls[0])
    ensures MatchingEnd(ls, 1) == Some(0)
  {
  }

  lemma {:induction false} StmtMeans(s: Stmt, rest: seq<string>, st: State)
    requires WfStmt(s)
    ensures Run(StmtLines(s) + rest, st) == Next(MeansStmt(s, st), rest)
    decreases s, 0
  {
    match s
    case Simple(l) =>
      RunSimple(l, rest, st);
    case If(h, b, f) =>
      BodyMeans(b, st);
      Balanced(b, [f] + rest, 1);
      EndHere(Lines(b) + ([f] + rest), |Lines(b)|, [f] + rest);
      RunIf(h, Lines(b), f, rest, st);
    case While(h, b, f) =>
      Flat(b, [f] + rest, 1);
      EndHere(b + ([f] + rest), |b|, [f] + rest);
      RunWhile(h, b, f, rest, st);
  }

  /** Running the lines of a program is what its structure says, for every program and every state. */
  lemma {:induction false} RunMeans(p: Program, st: State)
    requires WfProgram(p)
    ensures Run(Lines(p), st) == Means(p, st)
    decreases p, 0
  {
    match p
    case Stop =>
    case Then(s, r) =>
      StmtMeans(s, Lines(r), st);
      var o := MeansStmt(s, st);
      if o.ok {
        RunMeans(r, o.st);
      }
  }

  lemma {:induction false} BodyMeans(p: Program, st: State)
    requires WfProgram(p)
    ensures RunBody(Lines(p), st) == Means(p, st)
    decreases p, 1
  {
    match p
    case Stop =>
    case Then(s, r) =>
      var ls := Lines(p);
      assert StmtLines(s) != [] && ls[0] == StmtLines(s)[0];
      if IsIf(Skip(ls[0])) || SaysWhile(Skip(ls[0])) {
        RunMeans(p, st);
      } else {
        assert s.Simple?;
        assert ls[1..] == Lines(r);
        var o := DoLine(ls[0], st);
        if o.ok {
          BodyMeans(r, o.st);
        }
      }
  }

  // ---- blocks that are not closed, and ends that close nothing ----

  /** What comes after a program is run after it, unless it has failed. */
  lemma {:induction false} RunThen(p: Program, rest: seq<string>, st: State)
    requires WfProgram(p)
    ensures Run(Lines(p) + rest, st) == Next(Means(p, st), rest)
    decreases p
  {
    match p
    case Stop =>
      assert Lines(p) + rest == rest;
    case Then(s, r) =>
      assert Lines(p) + rest == StmtLines(s) + (Lines(r) + rest);
      StmtMeans(s, Lines(r) + rest, st);
      var o := MeansStmt(s, st);
      if o.ok {
        RunThen(r, rest, o.st);
      }
  }

  /** An end that closes nothing stops the script, after what comes before it has been done. */
  lemma StrayEnd(p: Program, f: string, rest: seq<string>, st: State)
    requires WfProgram(p) && Closes(f)
    ensures Run(Lines(p) + ([f] + rest), st)
            == if Means(p, st).ok then Fail(Means(p, st).st, UnexpectedEnd) else Means(p, st)
  {
    RunThen(p, [f] + rest, st);
  }

  /** A block without an end stops the script before any of it is done; only an if looks at its condition first. */
  lemma MissingEnd(h: string, p: Program, st: State)
    requires WfProgram(p) && Opens(h)
    ensures Run([h] + Lines(p), st)
            == if IsWhile(Skip(h)) then Fail(st, WhileWithoutEnd)
               else if Holds(Condition(h), st.env) == None then Fail(st, BadCondition) else Fail(st, IfWithoutEnd)
  {
    var ls := [h] + Lines(p);
    assert ls[1..] == Lines(p) && Lines(p) + [] == Lines(p);
    Balanced(p, [], 1);
  }

  /** A script within the limits does what the program it is the text of means. */
  lemma ScriptMeans(p: Program, st: State)
    requires WfProgram(p) && |Lines(p)| <= MAX_LINES && AllLines(Lines(p))
    ensures Run(Split(Join(Lines(p)), 64), st) == Means(p, st)
  {
    SplitJoin(Lines(p), MAX_LINES);
    RunMeans(p, st);
  }
}
