/** The dispatcher generator (generate_eosio_dispatch in tools/src/eosio-codegen.cpp, with
    the orders of tools/include/eosio/cdt_abi.hpp): a table of handlers becomes the body
    of `apply`, nested ifs and switches written out line by line.  The text is taken as
    tokens; a parser and an interpreter for such programs say what it means. */
module Dispatch {
  import opened Wrappers
  import opened Lexicographic

  const STAR: Text := [42]

  datatype Action = Action(name: Text, handler: Text)
  datatype Notify = Notify(name: Text, contract: Text, handler: Text)

  // ----- the order of notification handlers

  predicate NotifyLess(l: Notify, r: Notify) {
    if l.name == r.name && l.contract == STAR && r.contract != STAR then false
    else if l.name == r.name && l.contract != STAR && r.contract == STAR then true
    else Less(l.name, r.name) || (!Less(r.name, l.name) && Less(l.contract, r.contract))
  }

  predicate SameKey(l: Notify, r: Notify) { l.name == r.name && l.contract == r.contract }

  /** A strict order, total on (name, contract). */
  lemma NotifyTotal(l: Notify, r: Notify)
    ensures NotifyLess(l, r) || SameKey(l, r) || NotifyLess(r, l)
    ensures !(NotifyLess(l, r) && NotifyLess(r, l)) && (SameKey(l, r) ==> !NotifyLess(l, r))
  {
    LessTotal(l.name, r.name);
    LessTotal(l.contract, r.contract);
  }

  lemma NotifyTrans(a: Notify, b: Notify, c: Notify)
    requires NotifyLess(a, b) && NotifyLess(b, c)
    ensures NotifyLess(a, c)
  {
    LessTotal(a.name, b.name);
    LessTotal(b.name, c.name);
    LessTotal(a.name, c.name);
    LessTotal(a.contract, c.contract);
    if Less(a.name, b.name) && Less(b.name, c.name) { LessTrans(a.name, b.name, c.name); }
    if Less(a.contract, b.contract) && Less(b.contract, c.contract) { LessTrans(a.contract, b.contract, c.contract); }
  }

  /** The catch-all is last among the handlers of its name. */
  lemma StarLast(l: Notify, r: Notify)
    requires l.name == r.name && r.contract == STAR && l.contract != STAR
    ensures NotifyLess(l, r) && !NotifyLess(r, l)
  {
  }

  // ----- programs

  datatype Op = SetContractName | Call(handler: Text) | AssertUnlessEosio
  datatype Var = Code | ActionName
  datatype Cond = SelfCall | ActionIs(name: Text)

  datatype Token =
    | Do(op: Op)
    | Break
    | Case(name: Text)
    | Default
    | If(cond: Cond)
    | ElseIf(elseCond: Cond)
    | Else
    | Switch(on: Var)
    | Close

  /** Statements, as a list. */
  datatype Block = Nil | Cons(head: Stmt, tail: Block)
  datatype Stmt =
    | Simple(op: Op)
    | Stop
    | CaseLabel(name: Text)
    | DefaultLabel
    | IfStmt(cond: Cond, taken: Block, rest: Tail)
    | SwitchStmt(on: Var, body: Block)
  datatype Tail = NoElse | ElseBlock(block: Block) | ElseIfStmt(cond: Cond, taken: Block, rest: Tail)

  function Print(b: Block): seq<Token> {
    match b
    case Nil => []
    case Cons(s, t) => PrintStmt(s) + Print(t)
  }

  function PrintStmt(s: Stmt): (ts: seq<Token>)
    ensures |ts| > 0
  {
    match s
    case Simple(op) => [Do(op)]
    case Stop => [Break]
    case CaseLabel(name) => [Case(name)]
    case DefaultLabel => [Default]
    case IfStmt(c, th, rest) => [If(c)] + Print(th) + [Close] + PrintTail(rest)
    case SwitchStmt(v, body) => [Switch(v)] + Print(body) + [Close]
  }

  function PrintTail(t: Tail): seq<Token> {
    match t
    case NoElse => []
    case ElseBlock(b) => [Else] + Print(b) + [Close]
    case ElseIfStmt(c, th, rest) => [ElseIf(c)] + Print(th) + [Close] + PrintTail(rest)
  }

  // ----- parsing: what a token sequence is as a program

  datatype Parsed<T> = Fail | Ok(value: T, rest: seq<Token>)

  /** Statements up to the bracket that closes them. */
  function ParseBlock(ts: seq<Token>): (p: Parsed<Block>)
    ensures p.Ok? ==> |p.rest| <= |ts|
    decreases |ts|, 2
  {
    if ts == [] || ts[0].Close? || ts[0].Else? || ts[0].ElseIf? then Ok(Nil, ts)
    else
      var s := ParseStmt(ts);
      if s.Fail? then Fail else
      var t := ParseBlock(s.rest);
      if t.Fail? then Fail else Ok(Cons(s.value, t.value), t.rest)
  }

  function ParseStmt(ts: seq<Token>): (p: Parsed<Stmt>)
    requires ts != []
    ensures p.Ok? ==> |p.rest| < |ts|
    decreases |ts|, 1
  {
    match ts[0]
    case Do(op) => Ok(Simple(op), ts[1..])
    case Break => Ok(Stop, ts[1..])
    case Case(name) => Ok(CaseLabel(name), ts[1..])
    case Default => Ok(DefaultLabel, ts[1..])
    case If(c) =>
      var b := ParseBraced(ts[1..]);
      if b.Fail? then Fail else
      var t := ParseTail(b.rest);
      if t.Fail? then Fail else Ok(IfStmt(c, b.value, t.value), t.rest)
    case Switch(v) =>
      var b := ParseBraced(ts[1..]);
      if b.Fail? then Fail else Ok(SwitchStmt(v, b.value), b.rest)
    case _ => Fail
  }

  function ParseBraced(ts: seq<Token>): (p: Parsed<Block>)
    ensures p.Ok? ==> |p.rest| < |ts|
    decreases |ts|, 3
  {
    var b := ParseBlock(ts);
    if b.Fail? || b.rest == [] || !b.rest[0].Close? then Fail else Ok(b.value, b.rest[1..])
  }

  function ParseTail(ts: seq<Token>): (p: Parsed<Tail>)
    ensures p.Ok? ==> |p.rest| <= |ts|
    decreases |ts|, 0
  {
    if ts == [] then Ok(NoElse, ts)
    else match ts[0]
      case Else =>
        var b := ParseBraced(ts[1..]);
        if b.Fail? then Fail else Ok(ElseBlock(b.value), b.rest)
      case ElseIf(c) =>
        var b := ParseBraced(ts[1..]);
        if b.Fail? then Fail else
        var t := ParseTail(b.rest);
        if t.Fail? then Fail else Ok(ElseIfStmt(c, b.value, t.value), t.rest)
      case _ => Ok(NoElse, ts)
  }

  /** A whole program: no token may be left over. */
  function Parse(ts: seq<Token>): Option<Block> {
    var p := ParseBlock(ts);
    if p.Ok? && p.rest == [] then Some(p.value) else None
  }

  /** The text of a program is parsed as that program: its brackets match. */
  lemma {:induction false} ParsePrint(b: Block, rest: seq<Token>)
    requires rest == [] || rest[0].Close?
    ensures ParseBlock(Print(b) + rest) == Ok(b, rest)
    decreases b, 1
  {
    if b.Nil? {
      assert Print(b) + rest == rest;
    } else {
      var more := Print(b.tail) + rest;
      assert Print(b) + rest == PrintStmt(b.head) + more;
      FirstToken(b.head);
      if b.tail.Cons? { FirstToken(b.tail.head); }
      ParsePrintStmt(b.head, more);
      ParsePrint(b.tail, rest);
    }
  }

  lemma FirstToken(s: Stmt)
    ensures var t := PrintStmt(s)[0]; !t.Close? && !t.Else? && !t.ElseIf?
  {
  }

  lemma {:induction false} ParsePrintBraced(b: Block, rest: seq<Token>)
    ensures ParseBraced(Print(b) + ([Close] + rest)) == Ok(b, rest)
    decreases b, 2
  {
    ParsePrint(b, [Close] + rest);
    assert ([Close] + rest)[1..] == rest;
  }

  lemma AfterOpening(t: Token, body: seq<Token>, tail: seq<Token>, rest: seq<Token>)
    ensures ([t] + body + [Close] + tail + rest)[1..] == body + ([Close] + (tail + rest))
    ensures ([t] + body + [Close] + rest)[1..] == body + ([Close] + rest)
  {
  }

  lemma {:induction false} ParsePrintStmt(s: Stmt, rest: seq<Token>)
    requires rest == [] || !(rest[0].Else? || rest[0].ElseIf?)
    ensures ParseStmt(PrintStmt(s) + rest) == Ok(s, rest)
    decreases s, 0
  {
    var ts := PrintStmt(s) + rest;
    match s
    case IfStmt(c, th, tail) =>
      AfterOpening(ts[0], Print(th), PrintTail(tail), rest);
      ParsePrintBraced(th, PrintTail(tail) + rest);
      ParsePrintTail(tail, rest);
    case SwitchStmt(v, body) =>
      AfterOpening(ts[0], Print(body), [], rest);
      ParsePrintBraced(body, rest);
    case _ =>
      assert ts[1..] == rest;
  }

  lemma {:induction false} ParsePrintTail(t: Tail, rest: seq<Token>)
    requires rest == [] || !(rest[0].Else? || rest[0].ElseIf?)
    ensures ParseTail(PrintTail(t) + rest) == Ok(t, rest)
    decreases t, 0
  {
    var ts := PrintTail(t) + rest;
    match t
    case NoElse =>
      assert ts == rest;
    case ElseBlock(b) =>
      AfterOpening(ts[0], Print(b), [], rest);
      ParsePrintBraced(b, rest);
    case ElseIfStmt(c, th, tail) =>
      AfterOpening(ts[0], Print(th), PrintTail(tail), rest);
      ParsePrintBraced(th, PrintTail(tail) + rest);
      ParsePrintTail(tail, rest);
  }

  // ----- running a program

  const EOSIO: Text := [101, 111, 115, 105, 111]

  /** Receiver, code and action as numbers, and what number a name stands for. */
  datatype Env = Env(r: nat, c: nat, a: nat, value: Text -> nat) {
    predicate Holds(cond: Cond) {
      match cond
      case SelfCall => c == r
      case ActionIs(name) => a == value(name)
    }
    function Read(on: Var): nat { if on.Code? then c else a }
  }

  datatype Effect = ContractNameSet | Called(handler: Text) | CodeAssertFailed

  /** What has been done, and whether a break was met. */
  datatype Outcome = Outcome(effects: seq<Effect>, stopped: bool)

  function Size(b: Block): nat {
    match b case Nil => 0 case Cons(s, t) => 1 + StmtSize(s) + Size(t)
  }
  function StmtSize(s: Stmt): nat {
    match s
    case IfStmt(_, th, rest) => 1 + Size(th) + TailSize(rest)
    case SwitchStmt(_, body) => 1 + Size(body)
    case _ => 0
  }
  function TailSize(t: Tail): nat {
    match t
    case NoElse => 0
    case ElseBlock(b) => 1 + Size(b)
    case ElseIfStmt(_, th, rest) => 1 + Size(th) + TailSize(rest)
  }

  /** Behind the first case label with the given value. */
  function FromCase(b: Block, x: nat, env: Env): (r: Option<Block>)
    ensures r.Some? ==> Size(r.value) <= Size(b)
  {
    match b
    case Nil => None
    case Cons(s, t) => if s.CaseLabel? && env.value(s.name) == x then Some(t) else FromCase(t, x, env)
  }

  function FromDefault(b: Block): (r: Block)
    ensures Size(r) <= Size(b)
  {
    match b
    case Nil => Nil
    case Cons(s, t) => if s.DefaultLabel? then t else FromDefault(t)
  }

  /** Where a switch goes: to the case, else to the default, else past the end. */
  function Target(b: Block, x: nat, env: Env): (r: Block)
    ensures Size(r) <= Size(b)
  {
    var found := FromCase(b, x, env);
    if found.Some? then found.value else FromDefault(b)
  }

  function Run(b: Block, env: Env): Outcome
    decreases Size(b)
  {
    match b
    case Nil => Outcome([], false)
    case Cons(s, t) =>
      var o := RunStmt(s, env);
      if o.stopped then o else
      var rest := Run(t, env);
      Outcome(o.effects + rest.effects, rest.stopped)
  }

  function RunStmt(s: Stmt, env: Env): Outcome
    decreases StmtSize(s)
  {
    match s
    case Simple(SetContractName) => Outcome([ContractNameSet], false)
    case Simple(Call(h)) => Outcome([Called(h)], false)
    case Simple(AssertUnlessEosio) => Outcome(if env.r != env.value(EOSIO) then [CodeAssertFailed] else [], false)
    case Stop => Outcome([], true)
    case CaseLabel(_) => Outcome([], false)
    case DefaultLabel => Outcome([], false)
    case IfStmt(c, th, rest) => if env.Holds(c) then Run(th, env) else RunTail(rest, env)
    case SwitchStmt(v, body) => Outcome(Run(Target(body, env.Read(v), env), env).effects, false)
  }

  function RunTail(t: Tail, env: Env): Outcome
    decreases TailSize(t)
  {
    match t
    case NoElse => Outcome([], false)
    case ElseBlock(b) => Run(b, env)
    case ElseIfStmt(c, th, rest) => if env.Holds(c) then Run(th, env) else RunTail(rest, env)
  }

  // ----- the program for a table of handlers

  function ActionCases(actions: seq<Action>): Block {
    if actions == [] then Cons(DefaultLabel, Cons(Simple(AssertUnlessEosio), Nil))
    else Cons(CaseLabel(actions[0].name), Cons(Simple(Call(actions[0].handler)), Cons(Stop, ActionCases(actions[1..]))))
  }

  function Label(n: Notify): Stmt { if n.contract == STAR then DefaultLabel else CaseLabel(n.contract) }

  /** The cases for a name, and what follows for the other names. */
  datatype Grouped = Grouped(cases: Block, tail: Tail)

  function Group(name: Text, rest: seq<Notify>): Grouped
    decreases |rest|, if rest != [] && rest[0].name == name then 0 else 1
  {
    if rest == [] then Grouped(Nil, NoElse)
    else if rest[0].name == name then
      var g := Group(name, rest[1..]);
      Grouped(Cons(Label(rest[0]), Cons(Simple(Call(rest[0].handler)), Cons(Stop, g.cases))), g.tail)
    else
      var g := Group(rest[0].name, rest);
      Grouped(Nil, ElseIfStmt(ActionIs(rest[0].name), SwitchOnCode(g.cases), g.tail))
  }

  function SwitchOnCode(cases: Block): Block { Cons(SwitchStmt(Code, cases), Nil) }

  function SelfBlock(actions: seq<Action>): Block {
    if actions == [] then Nil else Cons(SwitchStmt(ActionName, ActionCases(actions)), Nil)
  }

  function OtherBlock(notifies: seq<Notify>): Block {
    if notifies == [] then Nil else
      var g := Group(notifies[0].name, notifies);
      Cons(IfStmt(ActionIs(notifies[0].name), SwitchOnCode(g.cases), g.tail), Nil)
  }

  function Program(actions: seq<Action>, notifies: seq<Notify>): Block {
    Cons(Simple(SetContractName), Cons(IfStmt(SelfCall, SelfBlock(actions), ElseBlock(OtherBlock(notifies))), Nil))
  }

  // ----- what it does: table lookup

  /** A table as iterating the sets gives it: in order, names not empty. */
  ghost predicate Table(actions: seq<Action>, notifies: seq<Notify>) {
    && (forall i, j :: 0 <= i < j < |actions| ==> Less(actions[i].name, actions[j].name))
    && (forall i, j :: 0 <= i < j < |notifies| ==> NotifyLess(notifies[i], notifies[j]))
    && (forall i :: 0 <= i < |notifies| ==> notifies[i].name != [])
  }

  /** Different names in the table stand for different numbers. */
  ghost predicate NamesApart(actions: seq<Action>, notifies: seq<Notify>, value: Text -> nat) {
    && (forall i, j :: 0 <= i < j < |actions| ==> value(actions[i].name) != value(actions[j].name))
    && NotifiesApart(notifies, value)
  }

  ghost predicate NotifiesApart(notifies: seq<Notify>, value: Text -> nat) {
    forall i, j :: 0 <= i < |notifies| && 0 <= j < |notifies| ==> ValuesApart(notifies[i], notifies[j], value)
  }

  ghost predicate ValuesApart(m: Notify, n: Notify, value: Text -> nat) {
    && (value(m.name) == value(n.name) ==> m.name == n.name)
    && (m.contract != STAR && n.contract != STAR && value(m.contract) == value(n.contract) ==> m.contract == n.contract)
  }

  ghost predicate IsAction(x: Action, env: Env) { env.value(x.name) == env.a }
  ghost predicate IsExact(n: Notify, env: Env) {
    env.value(n.name) == env.a && n.contract != STAR && env.value(n.contract) == env.c
  }
  ghost predicate IsCatchAll(n: Notify, env: Env) { env.value(n.name) == env.a && n.contract == STAR }

  /** The contract called itself: its action, or a failed assertion if the table has
      actions but not this one and the receiver is not eosio. */
  ghost predicate ActionLookup(actions: seq<Action>, env: Env, effects: seq<Effect>) {
    && (forall i :: 0 <= i < |actions| && IsAction(actions[i], env) ==> effects == [Called(actions[i].handler)])
    && ((forall i :: 0 <= i < |actions| ==> !IsAction(actions[i], env)) ==>
          effects == if actions != [] && env.r != env.value(EOSIO) then [CodeAssertFailed] else [])
  }

  /** A notification: the handler of this action and contract, else the catch-all of this
      action, else nothing. */
  ghost predicate NotifyLookup(notifies: seq<Notify>, env: Env, effects: seq<Effect>) {
    && (forall i :: 0 <= i < |notifies| && IsExact(notifies[i], env) ==> effects == [Called(notifies[i].handler)])
    && ((forall i :: 0 <= i < |notifies| ==> !IsExact(notifies[i], env)) ==>
          && (forall i :: 0 <= i < |notifies| && IsCatchAll(notifies[i], env) ==>
            effects == [Called(notifies[i].handler)])
          && ((forall i :: 0 <= i < |notifies| ==> !IsCatchAll(notifies[i], env)) ==> effects == []))
  }

  /** The rest of a table, in order, from a name on. */
  ghost predicate From(name: Text, rest: seq<Notify>) {
    && (forall i, j :: 0 <= i < j < |rest| ==> NotifyLess(rest[i], rest[j]))
    && (forall i :: 0 <= i < |rest| ==> AtMost(name, rest[i].name))
  }

  lemma NamesAscend(l: Notify, r: Notify)
    requires NotifyLess(l, r)
    ensures AtMost(l.name, r.name)
  {
    LessTotal(l.name, r.name);
  }

  lemma FromTail(name: Text, rest: seq<Notify>)
    requires From(name, rest) && rest != []
    ensures From(name, rest[1..]) && From(rest[0].name, rest)
    ensures rest[0].name != name ==> forall i :: 0 <= i < |rest| ==> rest[i].name != name
  {
    forall i | 0 <= i < |rest|
      ensures AtMost(rest[0].name, rest[i].name) && (rest[0].name != name ==> rest[i].name != name)
    {
      if i > 0 { NamesAscend(rest[0], rest[i]); }
      LessTotal(name, rest[0].name);
      if name != rest[0].name && rest[0].name != rest[i].name { LessTrans(name, rest[0].name, rest[i].name); }
      LessTotal(name, rest[i].name);
    }
  }

  /** The name's number is the action, and no other name's in the table is. */
  ghost predicate Selected(name: Text, rest: seq<Notify>, env: Env) {
    env.value(name) == env.a && forall i :: 0 <= i < |rest| && env.value(rest[i].name) == env.a ==> rest[i].name == name
  }

  lemma RunHandler(h: Text, more: Block, env: Env)
    ensures Run(Cons(Simple(Call(h)), Cons(Stop, more)), env) == Outcome([Called(h)], true)
  {
    assert Run(Cons(Stop, more), env) == Outcome([], true);
    assert [Called(h)] + [] == [Called(h)];
  }

  /** The case for the contract is the exact handler's, -1 if there is none. */
  lemma {:induction false} CaseFound(name: Text, rest: seq<Notify>, env: Env) returns (i: int)
    requires From(name, rest) && Selected(name, rest, env)
    ensures -1 <= i < |rest|
    ensures var t := FromCase(Group(name, rest).cases, env.c, env);
      if i == -1 then t.None? && forall j :: 0 <= j < |rest| ==> !IsExact(rest[j], env)
      else t.Some? && IsExact(rest[i], env) && Run(t.value, env).effects == [Called(rest[i].handler)]
  {
    i := -1;
    if rest != [] {
      FromTail(name, rest);
      if rest[0].name == name {
        var g := Group(name, rest[1..]);
        var body := Cons(Simple(Call(rest[0].handler)), Cons(Stop, g.cases));
        assert Group(name, rest).cases == Cons(Label(rest[0]), body);
        if rest[0].contract != STAR && env.value(rest[0].contract) == env.c {
          RunHandler(rest[0].handler, g.cases, env);
          i := 0;
        } else {
          var k := CaseFound(name, rest[1..], env);
          assert FromCase(Group(name, rest).cases, env.c, env) == FromCase(body, env.c, env) ==
            FromCase(g.cases, env.c, env);
          i := if k == -1 then -1 else k + 1;
          NoneOrLater(rest, env);
        }
      }
    }
  }

  lemma NoneOrLater(rest: seq<Notify>, env: Env)
    requires rest != []
    ensures (forall j :: 0 <= j < |rest[1..]| ==> !IsExact(rest[1..][j], env)) && !IsExact(rest[0], env) ==>
      forall j :: 0 <= j < |rest| ==> !IsExact(rest[j], env)
    ensures (forall j :: 0 <= j < |rest[1..]| ==> !IsCatchAll(rest[1..][j], env)) && !IsCatchAll(rest[0], env) ==>
      forall j :: 0 <= j < |rest| ==> !IsCatchAll(rest[j], env)
  {
    assert forall j :: 1 <= j < |rest| ==> rest[j] == rest[1..][j - 1];
  }

  /** The default is the catch-all's, and there is none without it. */
  lemma {:induction false} DefaultFound(name: Text, rest: seq<Notify>, env: Env) returns (i: int)
    requires From(name, rest) && Selected(name, rest, env)
    ensures -1 <= i < |rest|
    ensures var t := FromDefault(Group(name, rest).cases);
      if i == -1 then t.Nil? && forall j :: 0 <= j < |rest| ==> !IsCatchAll(rest[j], env)
      else IsCatchAll(rest[i], env) && Run(t, env).effects == [Called(rest[i].handler)]
  {
    i := -1;
    if rest != [] {
      FromTail(name, rest);
      if rest[0].name == name {
        var g := Group(name, rest[1..]);
        var body := Cons(Simple(Call(rest[0].handler)), Cons(Stop, g.cases));
        assert Group(name, rest).cases == Cons(Label(rest[0]), body);
        if rest[0].contract == STAR {
          RunHandler(rest[0].handler, g.cases, env);
          i := 0;
        } else {
          var k := DefaultFound(name, rest[1..], env);
          assert FromDefault(Group(name, rest).cases) == FromDefault(body) == FromDefault(g.cases);
          i := if k == -1 then -1 else k + 1;
          NoneOrLater(rest, env);
        }
      }
    }
  }

  /** Two handlers that both answer are the same one. */
  lemma OnlyOne(rest: seq<Notify>, i: nat, j: nat, env: Env)
    requires From([], rest) && NotifiesApart(rest, env.value) && i < |rest| && j < |rest|
    ensures IsExact(rest[i], env) && IsExact(rest[j], env) ==> i == j
    ensures IsCatchAll(rest[i], env) && IsCatchAll(rest[j], env) ==> i == j
  {
    assert ValuesApart(rest[i], rest[j], env.value);
    NotifyTotal(rest[i], rest[j]);
    if i < j { assert NotifyLess(rest[i], rest[j]); }
    if j < i { assert NotifyLess(rest[j], rest[i]); }
  }

  /** The switch for a name does the lookup. */
  lemma SwitchLooksUp(name: Text, rest: seq<Notify>, env: Env)
    requires From(name, rest) && Selected(name, rest, env) && NotifiesApart(rest, env.value)
    ensures NotifyLookup(rest, env, Run(SwitchOnCode(Group(name, rest).cases), env).effects)
  {
    var cases := Group(name, rest).cases;
    var effects := Run(Target(cases, env.c, env), env).effects;
    RunOnly(SwitchStmt(Code, cases), env);
    var i := CaseFound(name, rest, env);
    var k := DefaultFound(name, rest, env);
    LookupIs(rest, env, effects, i, k);
  }

  lemma RunOnly(s: Stmt, env: Env)
    ensures Run(Cons(s, Nil), env).effects == RunStmt(s, env).effects
  {
    assert Run(Nil, env) == Outcome([], false);
  }

  lemma LookupIs(rest: seq<Notify>, env: Env, effects: seq<Effect>, i: int, k: int)
    requires From([], rest) && NotifiesApart(rest, env.value) && -1 <= i < |rest| && -1 <= k < |rest|
    requires if i >= 0 then IsExact(rest[i], env) else forall j :: 0 <= j < |rest| ==> !IsExact(rest[j], env)
    requires if k >= 0 then IsCatchAll(rest[k], env) else forall j :: 0 <= j < |rest| ==> !IsCatchAll(rest[j], env)
    requires effects == if i >= 0 then [Called(rest[i].handler)] else if k >= 0 then [Called(rest[k].handler)] else []
    ensures NotifyLookup(rest, env, effects)
  {
    forall j | 0 <= j < |rest| && IsExact(rest[j], env)
      ensures effects == [Called(rest[j].handler)]
    {
      OnlyOne(rest, i, j, env);
    }
    if i == -1 {
      forall j | 0 <= j < |rest| && IsCatchAll(rest[j], env)
        ensures effects == [Called(rest[j].handler)]
      {
        OnlyOne(rest, k, j, env);
      }
    }
  }

  /** The chain behind the ifs taken so far does the lookup for all other names. */
  lemma {:induction false} ChainLooksUp(name: Text, rest: seq<Notify>, env: Env)
    requires From(name, rest) && NotifiesApart(rest, env.value) && env.value(name) != env.a
    ensures NotifyLookup(rest, env, RunTail(Group(name, rest).tail, env).effects)
    decreases |rest|, if rest != [] && rest[0].name == name then 0 else 1
  {
    if rest != [] {
      FromTail(name, rest);
      if rest[0].name == name {
        TailApart(rest, env.value);
        ChainLooksUp(name, rest[1..], env);
        LookupLater(rest, env, RunTail(Group(name, rest).tail, env).effects);
      } else {
        var first := rest[0].name;
        if env.value(first) == env.a {
          SelectedFirst(rest, env);
          SwitchLooksUp(first, rest, env);
        } else {
          ChainLooksUp(first, rest, env);
        }
      }
    }
  }

  lemma TailApart(rest: seq<Notify>, value: Text -> nat)
    requires NotifiesApart(rest, value) && rest != []
    ensures NotifiesApart(rest[1..], value)
  {
    forall i, j | 0 <= i < |rest[1..]| && 0 <= j < |rest[1..]|
      ensures ValuesApart(rest[1..][i], rest[1..][j], value)
    {
      assert ValuesApart(rest[i + 1], rest[j + 1], value);
    }
  }

  lemma SelectedFirst(rest: seq<Notify>, env: Env)
    requires NotifiesApart(rest, env.value) && rest != [] && env.value(rest[0].name) == env.a
    ensures Selected(rest[0].name, rest, env)
  {
    forall i | 0 <= i < |rest| && env.value(rest[i].name) == env.a
      ensures rest[i].name == rest[0].name
    {
      assert ValuesApart(rest[i], rest[0], env.value);
    }
  }

  /** A handler of another name does not matter. */
  lemma LookupLater(rest: seq<Notify>, env: Env, effects: seq<Effect>)
    requires rest != [] && env.value(rest[0].name) != env.a && NotifyLookup(rest[1..], env, effects)
    ensures NotifyLookup(rest, env, effects)
  {
    var more := rest[1..];
    assert forall j :: 1 <= j < |rest| ==> rest[j] == more[j - 1];
    assert forall j :: 0 <= j < |more| ==> more[j] == rest[j + 1];
  }

  /** Notifications are looked up in the table. */
  lemma OtherLooksUp(notifies: seq<Notify>, env: Env)
    requires From([], notifies) && NotifiesApart(notifies, env.value)
    ensures NotifyLookup(notifies, env, Run(OtherBlock(notifies), env).effects)
  {
    if notifies != [] {
      var first := notifies[0].name;
      var g := Group(first, notifies);
      FromTail([], notifies);
      RunOnly(IfStmt(ActionIs(first), SwitchOnCode(g.cases), g.tail), env);
      if env.value(first) == env.a {
        SelectedFirst(notifies, env);
        SwitchLooksUp(first, notifies, env);
      } else {
        ChainLooksUp(first, notifies, env);
      }
    }
  }

  /** The switch over the actions goes to the action's case, or to the assertion. */
  lemma {:induction false} ActionFound(actions: seq<Action>, env: Env) returns (i: int)
    ensures -1 <= i < |actions|
    ensures var t := Run(Target(ActionCases(actions), env.a, env), env);
      if i == -1 then
        && FromCase(ActionCases(actions), env.a, env).None?
        && (forall j :: 0 <= j < |actions| ==> !IsAction(actions[j], env))
        && FromDefault(ActionCases(actions)) == Cons(Simple(AssertUnlessEosio), Nil)
      else
        && IsAction(actions[i], env) && FromCase(ActionCases(actions), env.a, env).Some?
        && t.effects == [Called(actions[i].handler)]
  {
    i := -1;
    if actions == [] {
      var last := Cons(Simple(AssertUnlessEosio), Nil);
      assert FromCase(ActionCases([]), env.a, env) == FromCase(last, env.a, env) == FromCase(Nil, env.a, env);
    } else {
      var more := ActionCases(actions[1..]);
      var body := Cons(Simple(Call(actions[0].handler)), Cons(Stop, more));
      assert ActionCases(actions) == Cons(CaseLabel(actions[0].name), body);
      if env.value(actions[0].name) == env.a {
        RunHandler(actions[0].handler, more, env);
        i := 0;
      } else {
        var k := ActionFound(actions[1..], env);
        assert FromCase(ActionCases(actions), env.a, env) == FromCase(body, env.a, env) == FromCase(more, env.a, env);
        assert FromDefault(ActionCases(actions)) == FromDefault(body) == FromDefault(more);
        i := if k == -1 then -1 else k + 1;
        assert forall j :: 1 <= j < |actions| ==> actions[j] == actions[1..][j - 1];
      }
    }
  }

  lemma SelfLooksUp(actions: seq<Action>, env: Env)
    requires forall i, j :: 0 <= i < j < |actions| ==> env.value(actions[i].name) != env.value(actions[j].name)
    ensures ActionLookup(actions, env, Run(SelfBlock(actions), env).effects)
  {
    if actions != [] {
      RunOnly(SwitchStmt(ActionName, ActionCases(actions)), env);
      var i := ActionFound(actions, env);
      if i == -1 {
        RunOnly(Simple(AssertUnlessEosio), env);
      } else {
        forall j | 0 <= j < |actions| && IsAction(actions[j], env)
          ensures actions[j].handler == actions[i].handler
        {
          assert env.value(actions[i].name) == env.value(actions[j].name);
        }
      }
    }
  }

  /** Running the program of a table does what looking up in the table says. */
  lemma ProgramLooksUp(actions: seq<Action>, notifies: seq<Notify>, env: Env)
    requires Table(actions, notifies) && NamesApart(actions, notifies, env.value)
    ensures var effects := Run(Program(actions, notifies), env).effects;
      && effects != [] && effects[0] == ContractNameSet
      && if env.c == env.r then ActionLookup(actions, env, effects[1..]) else NotifyLookup(notifies, env, effects[1..])
  {
    var s := IfStmt(SelfCall, SelfBlock(actions), ElseBlock(OtherBlock(notifies)));
    RunOnly(s, env);
    SelfLooksUp(actions, env);
    assert From([], notifies) by {
      forall i | 0 <= i < |notifies|
        ensures AtMost([], notifies[i].name)
      {
        assert notifies[i].name != [];
      }
    }
    OtherLooksUp(notifies, env);
    var inner := Run(Cons(s, Nil), env);
    assert Run(Program(actions, notifies), env).effects == [ContractNameSet] + inner.effects;
    assert ([ContractNameSet] + inner.effects)[1..] == inner.effects;
  }

  // ----- the generator

  /** The lines for one notification handler. */
  function HandlerTokens(n: Notify): seq<Token> {
    [if n.contract == STAR then Default else Case(n.contract), Do(Call(n.handler)), Break]
  }

  /** The lines before a handler: where the name changes, the brackets of the last group
      and the head of the next. */
  function Opening(action: Text, name: Text): seq<Token> {
    if name == action then []
    else (if action == [] then [If(ActionIs(name))] else [Close, Close, ElseIf(ActionIs(name))]) + [Switch(Code)]
  }

  /** What the loop writes for one handler. */
  function Lines(action: Text, n: Notify): seq<Token> { Opening(action, n.name) + HandlerTokens(n) }

  /** What the loop writes for the rest of the table, and the brackets that close it. */
  function Emitted(action: Text, rest: seq<Notify>): seq<Token>
    decreases |rest|
  {
    if rest == [] then [Close, Close] else Lines(action, rest[0]) + Emitted(rest[0].name, rest[1..])
  }

  /** The lines written for a group are its cases, the brackets, and the rest of the chain. */
  lemma {:induction false} EmittedGroup(name: Text, rest: seq<Notify>)
    requires name != [] && forall i :: 0 <= i < |rest| ==> rest[i].name != []
    ensures var g := Group(name, rest); Emitted(name, rest) == Print(g.cases) + [Close, Close] + PrintTail(g.tail)
    decreases |rest|
  {
    assert Print(Nil) == [];
    if rest != [] {
      var first := rest[0];
      var g1 := Group(first.name, rest[1..]);
      EmittedGroup(first.name, rest[1..]);
      PrintHandler(first, g1.cases);
      Regroup(HandlerTokens(first), Print(g1.cases), PrintTail(g1.tail), ElseIf(ActionIs(first.name)));
      if first.name != name {
        var cases := Cons(Label(first), Cons(Simple(Call(first.handler)), Cons(Stop, g1.cases)));
        assert Group(first.name, rest) == Grouped(cases, g1.tail);
        PrintSwitch(cases);
      }
    }
  }

  lemma Regroup(handler: seq<Token>, cases: seq<Token>, tail: seq<Token>, elseIf: Token)
    ensures ([] + handler) + (cases + [Close, Close] + tail) == (handler + cases) + [Close, Close] + tail
    ensures (([Close, Close, elseIf] + [Switch(Code)]) + handler) + (cases + [Close, Close] + tail)
         == [] + [Close, Close] + ([elseIf] + ([Switch(Code)] + (handler + cases) + [Close]) + [Close] + tail)
  {
  }

  lemma PrintHandler(n: Notify, more: Block)
    ensures Print(Cons(Label(n), Cons(Simple(Call(n.handler)), Cons(Stop, more)))) == HandlerTokens(n) + Print(more)
  {
    PrintThree(Label(n), Simple(Call(n.handler)), Stop, more);
    var x := if n.contract == STAR then Default else Case(n.contract);
    assert PrintStmt(Label(n)) == [x];
    assert [x] + [Do(Call(n.handler))] + [Break] == HandlerTokens(n);
  }

  lemma PrintThree(s1: Stmt, s2: Stmt, s3: Stmt, more: Block)
    ensures Print(Cons(s1, Cons(s2, Cons(s3, more)))) == (PrintStmt(s1) + PrintStmt(s2) + PrintStmt(s3)) + Print(more)
  {
    assert Print(Cons(s3, more)) == PrintStmt(s3) + Print(more);
    assert Print(Cons(s2, Cons(s3, more))) == PrintStmt(s2) + Print(Cons(s3, more));
    FourParts(PrintStmt(s1), PrintStmt(s2), PrintStmt(s3), Print(more));
  }

  lemma FourParts(a: seq<Token>, b: seq<Token>, c: seq<Token>, d: seq<Token>)
    ensures a + (b + (c + d)) == (a + b + c) + d
  {
  }

  lemma PrintSwitch(cases: Block)
    ensures Print(SwitchOnCode(cases)) == [Switch(Code)] + Print(cases) + [Close]
  {
    assert Print(Nil) == [];
  }

  /** All lines for the notifications are the text of their program. */
  lemma {:induction false} EmittedOther(notifies: seq<Notify>)
    requires notifies != [] && forall i :: 0 <= i < |notifies| ==> notifies[i].name != []
    ensures Emitted([], notifies) == Print(OtherBlock(notifies))
  {
    var first := notifies[0];
    var g, g1 := Group(first.name, notifies), Group(first.name, notifies[1..]);
    EmittedGroup(first.name, notifies[1..]);
    PrintHandler(first, g1.cases);
    PrintSwitch(g.cases);
    assert Print(Nil) == [];
    Regroup2(If(ActionIs(first.name)), HandlerTokens(first), Print(g1.cases), PrintTail(g1.tail));
  }

  lemma Regroup2(t: Token, handler: seq<Token>, cases: seq<Token>, tail: seq<Token>)
    ensures (([t] + [Switch(Code)]) + handler) + (cases + [Close, Close] + tail)
         == [t] + ([Switch(Code)] + (handler + cases) + [Close]) + [Close] + tail + []
  {
  }

  /** One more action in front. */
  lemma PrintActions(actions: seq<Action>)
    ensures actions == [] ==> Print(ActionCases(actions)) == [Default, Do(AssertUnlessEosio)]
    ensures actions != [] ==>
      Print(ActionCases(actions)) == [Case(actions[0].name), Do(Call(actions[0].handler)), Break] +
        Print(ActionCases(actions[1..]))
  {
    assert Print(Nil) == [];
    if actions == [] {
      assert Print(Cons(Simple(AssertUnlessEosio), Nil)) == [Do(AssertUnlessEosio)];
    } else {
      var name, handler := actions[0].name, actions[0].handler;
      PrintThree(CaseLabel(name), Simple(Call(handler)), Stop, ActionCases(actions[1..]));
      assert [Case(name)] + [Do(Call(handler))] + [Break] == [Case(name), Do(Call(handler)), Break];
    }
  }

  method GenerateActions(actions: seq<Action>, out0: seq<Token>) returns (out: seq<Token>)
    requires actions != []
    ensures out == out0 + Print(SelfBlock(actions))
  {
    out := out0 + [Switch(ActionName)];
    for i := 0 to |actions|
      invariant out + Print(ActionCases(actions[i..])) == out0 + [Switch(ActionName)] + Print(ActionCases(actions))
    {
      PrintActions(actions[i..]);
      assert actions[i..][1..] == actions[i + 1..];
      ghost var more := Print(ActionCases(actions[i + 1..]));
      Reassociate(out, [Case(actions[i].name), Do(Call(actions[i].handler)), Break], more);
      out := out + [Case(actions[i].name), Do(Call(actions[i].handler)), Break];
    }
    assert actions[|actions|..] == [];
    PrintActions([]);
    assert Print(Nil) == [];
    Reassociate(out0, [Switch(ActionName)], Print(ActionCases(actions)));
    out := out + [Default, Do(AssertUnlessEosio), Close];
    assert out == (out0 + ([Switch(ActionName)] + Print(ActionCases(actions)))) + [Close];
  }

  lemma Reassociate(a: seq<Token>, b: seq<Token>, c: seq<Token>)
    ensures (a + b) + c == a + (b + c)
  {
  }

  method GenerateNotifies(notifies: seq<Notify>, out0: seq<Token>) returns (out: seq<Token>)
    requires notifies != [] && forall i :: 0 <= i < |notifies| ==> notifies[i].name != []
    ensures out == out0 + Print(OtherBlock(notifies))
  {
    out := out0;
    var action: Text := [];
    for i := 0 to |notifies|
      invariant out + Emitted(action, notifies[i..]) == out0 + Emitted([], notifies)
    {
      var wn := notifies[i];
      assert notifies[i..][0] == wn && notifies[i..][1..] == notifies[i + 1..];
      Reassociate(out, Lines(action, wn), Emitted(wn.name, notifies[i + 1..]));
      ghost var lines, before := Lines(action, wn), out;
      if wn.name != action {
        if action == [] {
          out := out + [If(ActionIs(wn.name))];
        } else {
          out := out + [Close, Close, ElseIf(ActionIs(wn.name))];
        }
        out := out + [Switch(Code)];
        action := wn.name;
      }
      out := out + [if wn.contract == STAR then Default else Case(wn.contract), Do(Call(wn.handler)), Break];
      assert out == before + lines;
    }
    out := out + [Close, Close];
    EmittedOther(notifies);
  }

  /** The body of `apply` for a table: well bracketed, and the program of the table. */
  method Generate(actions: seq<Action>, notifies: seq<Notify>) returns (out: seq<Token>)
    requires Table(actions, notifies)
    ensures out == Print(Program(actions, notifies)) && Parse(out) == Some(Program(actions, notifies))
  {
    out := [Do(SetContractName), If(SelfCall)];
    if |actions| > 0 {
      out := GenerateActions(actions, out);
    }
    out := out + [Close, Else];
    if |notifies| > 0 {
      out := GenerateNotifies(notifies, out);
    }
    out := out + [Close];
    PrintProgram(actions, notifies);
    ParsePrint(Program(actions, notifies), []);
    assert Print(Program(actions, notifies)) + [] == out;
  }

  lemma PrintProgram(actions: seq<Action>, notifies: seq<Notify>)
    ensures Print(Program(actions, notifies)) ==
      [Do(SetContractName), If(SelfCall)] + Print(SelfBlock(actions)) + [Close, Else] + Print(OtherBlock(notifies)) +
        [Close]
  {
    assert Print(Nil) == [];
    var s := IfStmt(SelfCall, SelfBlock(actions), ElseBlock(OtherBlock(notifies)));
    assert Print(Cons(s, Nil)) == PrintStmt(s) + [];
    assert PrintStmt(s) == [If(SelfCall)] + Print(SelfBlock(actions)) + [Close] +
      ([Else] + Print(OtherBlock(notifies)) + [Close]);
  }
}
