/** frontend/array_inflate.cpp: the pass that finds the names to inflate, and its whole run. */
module InflationPass {
  import opened ArrayInflation

  // ---- Which names are involved -------------------------------------------------------------

  /** For each name, the names whose definitions mention it. */
  type References = map<Id, set<Id>>

  function Users(refs: References, id: Id): set<Id> {
    if id in refs then refs[id] else {}
  }

  ghost predicate Covers(refs: References, p: Program) {
    forall a, b :: a in p && b in Mentions(p[a]) ==> a in Users(refs, b)
  }

  ghost predicate Closed(refs: References, c: set<Id>, exceptions: set<Id>) {
    forall b :: b in c && b !in exceptions ==> Users(refs, b) <= c
  }

  /** c is the least set that contains start and the users of its members other than exceptions. */
  ghost predicate IsClosure(refs: References, start: set<Id>, exceptions: set<Id>, c: set<Id>) {
    && start <= c && Closed(refs, c, exceptions)
    && forall o :: start <= o && Closed(refs, o, exceptions) ==> c <= o
  }

  predicate Mentioned(p: Program, seen: set<Id>, a: Id, b: Id) {
    a in seen && a in p && b in Mentions(p[a])
  }

  /** Edges found from the definitions of names `seen` and the mentions `part` in that of id. */
  ghost predicate Found(refs: References, p: Program, seen: set<Id>, id: Id, part: set<Id>) {
    forall a, b :: a in Users(refs, b) <==> Mentioned(p, seen, a, b) || (a == id && b in part)
  }

  method AnalyzeReferences(p: Program) returns (refs: References)
    ensures forall a, b :: a in Users(refs, b) <==> a in p && b in Mentions(p[a])
  {
    refs := map[];
    var todo := p.Keys;
    while todo != {}
      invariant todo <= p.Keys
      invariant Found(refs, p, p.Keys - todo, 0, {})
    {
      var id :| id in todo;
      ghost var seen := p.Keys - todo;
      refs := VisitDefinition(refs, p, seen, id);
      todo := todo - {id};
      assert p.Keys - todo == seen + {id};
    }
  }

  method VisitDefinition(known: References, p: Program, ghost seen: set<Id>, id: Id) returns (refs: References)
    requires Found(known, p, seen, 0, {}) && id in p
    ensures Found(refs, p, seen + {id}, 0, {})
  {
    refs := known;
    var mentioned := Mentions(p[id]);
    while mentioned != {}
      invariant mentioned <= Mentions(p[id])
      invariant Found(refs, p, seen, id, Mentions(p[id]) - mentioned)
    {
      var b :| b in mentioned;
      FoundMore(refs, p, seen, id, Mentions(p[id]) - mentioned, b);
      refs := AddUser(refs, b, id);
      mentioned := mentioned - {b};
      assert Mentions(p[id]) - mentioned == Mentions(p[id]) - (mentioned + {b}) + {b};
    }
  }

  lemma FoundMore(refs: References, p: Program, seen: set<Id>, id: Id, part: set<Id>, b: Id)
    requires Found(refs, p, seen, id, part)
    ensures Found(AddUser(refs, b, id), p, seen, id, part + {b})
  {
  }

  function AddUser(refs: References, b: Id, user: Id): (r: References)
    ensures forall x :: Users(r, x) == if x == b then Users(refs, b) + {user} else Users(refs, x)
  {
    refs[b := Users(refs, b) + {user}]
  }

  ghost function Universe(refs: References, ids: set<Id>): set<Id> {
    ids + set b, a | b in refs && a in refs[b] :: a
  }

  method CloseUnderReferences(refs: References, ids: set<Id>, exceptions: set<Id>) returns (closed: set<Id>)
    ensures IsClosure(refs, ids, exceptions, closed)
  {
    closed := ids;
    var toCheck := Listed(ids);
    while toCheck != []
      invariant ids <= closed <= Universe(refs, ids)
      invariant forall id :: id in toCheck ==> id in closed
      invariant forall b :: b in closed && b !in exceptions && b !in toCheck ==> Users(refs, b) <= closed
      invariant forall o :: ids <= o && Closed(refs, o, exceptions) ==> closed <= o
      decreases |Universe(refs, ids) - closed|, |toCheck|
    {
      var id := toCheck[0];
      ghost var before := toCheck;
      toCheck := toCheck[1..];
      assert before == [id] + toCheck;
      if id !in exceptions {
        closed, toCheck := AddUsers(refs, ids, exceptions, closed, toCheck, id);
      }
    }
  }

  method AddUsers(refs: References, ghost ids: set<Id>, ghost exceptions: set<Id>, known: set<Id>, waiting: seq<Id>, id: Id)
      returns (closed: set<Id>, toCheck: seq<Id>)
    requires known <= Universe(refs, ids) && id in known && id !in exceptions
    requires forall x :: x in waiting ==> x in known
    requires forall o :: ids <= o && Closed(refs, o, exceptions) ==> known <= o
    ensures known <= closed <= Universe(refs, ids) && Users(refs, id) <= closed
    ensures forall x :: x in toCheck <==> x in waiting || x in closed - known
    ensures forall o :: ids <= o && Closed(refs, o, exceptions) ==> closed <= o
    ensures closed == known ==> toCheck == waiting
    ensures |Universe(refs, ids) - closed| <= |Universe(refs, ids) - known|
    ensures closed != known ==> |Universe(refs, ids) - closed| < |Universe(refs, ids) - known|
  {
    closed, toCheck := known, waiting;
    var todo := Users(refs, id);
    while todo != {}
      invariant todo <= Users(refs, id) && Users(refs, id) - todo <= closed
      invariant known <= closed <= Universe(refs, ids)
      invariant forall x :: x in toCheck <==> x in waiting || x in closed - known
      invariant forall o :: ids <= o && Closed(refs, o, exceptions) ==> closed <= o
      invariant closed == known ==> toCheck == waiting
      invariant |Universe(refs, ids) - closed| <= |Universe(refs, ids) - known|
      invariant closed != known ==> |Universe(refs, ids) - closed| < |Universe(refs, ids) - known|
    {
      var user :| user in todo;
      todo := todo - {user};
      if user !in closed {
        assert user in Universe(refs, ids);
        assert Universe(refs, ids) - (closed + {user}) == (Universe(refs, ids) - closed) - {user};
        closed := closed + {user};
        toCheck := toCheck + [user];
      }
    }
  }

  method Listed(ids: set<Id>) returns (r: seq<Id>)
    ensures forall id :: id in r <==> id in ids
  {
    r := [];
    var todo := ids;
    while todo != {}
      invariant todo <= ids
      invariant forall id :: id in r <==> id in ids - todo
    {
      var id :| id in todo;
      r := r + [id];
      todo := todo - {id};
    }
  }

  /** A name is involved only if it is so from the start or uses another involved name. */
  lemma InvolvedForAReason(refs: References, start: set<Id>, exceptions: set<Id>, c: set<Id>, id: Id)
    requires IsClosure(refs, start, exceptions, c) && id in c && id !in start
    ensures exists b :: b in c && b != id && b !in exceptions && id in Users(refs, b)
  {
    var o := c - {id};
    assert !Closed(refs, o, exceptions);
    var b :| b in o && b !in exceptions && !(Users(refs, b) <= o);
  }

  // ---- The whole pass -----------------------------------------------------------------------

  /** A variable, the name whose definition binds it, and the names in which it is free. */
  datatype Info = Info(v: Variable, source: Id, free: set<Id>)

  ghost predicate Involves(refs: References, info: Info, c: set<Id>) {
    IsClosure(refs, info.free + {info.source}, {info.source}, c)
  }

  /** What lexical scoping gives: a variable is bound in one definition, and it and the names that
      depend on it are used there only inside the array that binds it. */
  ghost predicate Suited(refs: References, info: Info, p: Program) {
    && (forall id :: id in p && id != info.source ==> info.v !in Binders(p[id]))
    && (forall id :: id in p && info.v in FreeVars(p[id]) ==> id in info.free)
    && (forall c :: Involves(refs, info, c) && info.source in p ==> Scoped(info.v, c - {info.source}, p[info.source]))
  }

  ghost predicate IsStep(refs: References, info: Info, step: Step, n: nat) {
    && step.i == info.v && step.source == info.source && info.v.name < n
    && Involves(refs, info, step.added.Keys + {info.source}) && info.source !in step.added
    && forall x :: x in step.added ==> step.added[x].range == info.v.range && step.added[x].name >= n
  }

  /** What every inflation keeps. */
  ghost predicate Sound(refs: References, p: Program, n: nat) {
    Covers(refs, p) && forall id :: id in p ==> Below(p[id], n)
  }

  /** The closure makes the inflation valid: a name outside it has nothing to do with the variable. */
  lemma StepIsValid(refs: References, info: Info, step: Step, p: Program, n: nat)
    requires IsStep(refs, info, step, n) && Suited(refs, info, p) && Sound(refs, p, n)
    ensures Valid(step, p, n)
  {
    var c := step.added.Keys + {info.source};
    assert c - {info.source} == step.added.Keys;
    forall id | id in p && id !in step.added ensures Scoped(step.i, step.added.Keys, p[id]) {
      if id != info.source {
        forall b | b in Mentions(p[id]) ensures b !in step.added.Keys {
          assert id in Users(refs, b) && id !in c;
        }
        ScopedWhenUnrelated(step.i, step.added.Keys, p[id]);
      }
    }
  }

  /** Inflation leaves no free occurrence of its variable, and makes no variable free. */
  lemma DefinitionIsClosed(refs: References, info: Info, step: Step, p: Program, n: nat, id: Id)
    requires IsStep(refs, info, step, n) && Suited(refs, info, p) && Sound(refs, p, n) && id in p
    ensures FreeVars(Inflated(step, p)[id]) <= FreeVars(p[id]) - {info.v}
  {
    StepIsValid(refs, info, step, p, n);
    RewriteFree(step.i, step.added.Keys, p[id], Substitute(step, id));
    if id !in step.added {
      ScopedIsNotFree(step.i, step.added.Keys, p[id]);
    }
  }

  lemma DefinitionKeepsNames(step: Step, e: Expr, id: Id)
    ensures Mentions(Definition(step, id, e)) == Mentions(e)
    ensures Binders(Definition(step, id, e)) == Binders(e) + if id in step.added then {step.added[id]} else {}
  {
    RewriteNames(step.i, step.added.Keys, e, Substitute(step, id));
  }

  lemma SoundStays(refs: References, info: Info, step: Step, p: Program, n: nat, m: nat)
    requires IsStep(refs, info, step, n) && Sound(refs, p, n) && m >= n
    requires forall x :: x in step.added ==> step.added[x].name < m
    ensures Sound(refs, Inflated(step, p), m)
  {
    forall id | id in p ensures Below(Definition(step, id, p[id]), m) && Mentions(Definition(step, id, p[id])) == Mentions(p[id]) {
      DefinitionKeepsNames(step, p[id], id);
      BelowMore(p[id], n, m);
      RewriteBelow(step.i, step.added.Keys, p[id], Substitute(step, id), m);
    }
  }

  lemma {:induction false} BelowMore(e: Expr, n: nat, m: nat)
    requires Below(e, n) && n <= m
    ensures Below(e, m)
  {
    match e
    case Ref(_) =>
    case Var(_) =>
    case Operation(_, es) => forall k | 0 <= k < |es| { BelowMore(es[k], n, m); }
    case Select(g, v, o) =>
      BelowMore(g, n, m);
      BelowMore(v, n, m);
      BelowMore(o, n, m);
    case Array(_, body) => BelowMore(body, n, m);
    case App(t, es) =>
      BelowMore(t, n, m);
      forall k | 0 <= k < |es| { BelowMore(es[k], n, m); }
  }

  /** The information gathered before the first inflation stays right for the other variables. */
  lemma SuitedStays(refs: References, info: Info, step: Step, p: Program, n: nat, other: Info)
    requires IsStep(refs, info, step, n) && Suited(refs, info, p) && Sound(refs, p, n)
    requires Suited(refs, other, p) && other.v != info.v && other.v.name < n
    ensures Suited(refs, other, Inflated(step, p))
  {
    var q := Inflated(step, p);
    forall id | id in p
      ensures id != other.source ==> other.v !in Binders(q[id])
      ensures other.v in FreeVars(q[id]) ==> id in other.free
    {
      DefinitionKeepsNames(step, p[id], id);
      DefinitionIsClosed(refs, info, step, p, n, id);
    }
    forall c | Involves(refs, other, c) && other.source in p
      ensures Scoped(other.v, c - {other.source}, q[other.source])
    {
      RewriteScoped(step.i, step.added.Keys, p[other.source], Substitute(step, other.source), other.v, c - {other.source});
    }
  }

  /** What the scopes of the program give for all its variables. */
  ghost predicate LexicallyScoped(p: Program) {
    && (forall a, b, v :: a in p && b in p && v in Binders(p[a]) && v in Binders(p[b]) ==> a == b)
    && (forall a, v :: a in p && v in FreeVars(p[a]) ==> exists s :: s in p && v in Binders(p[s]))
    && (forall refs, s, v, c :: Reflects(refs, p) && s in p && v in Binders(p[s]) && Involves(refs, Info(v, s, FreeIn(p, v)), c)
          ==> Scoped(v, c - {s}, p[s]))
  }

  ghost predicate Reflects(refs: References, p: Program) {
    forall a, b :: a in Users(refs, b) <==> a in p && b in Mentions(p[a])
  }

  function FreeIn(p: Program, v: Variable): set<Id> {
    set id | id in p && v in FreeVars(p[id])
  }

  function AllBinders(p: Program): set<(Id, Variable)> {
    set s, v | s in p && v in Binders(p[s]) :: (s, v)
  }

  // ---- What a sequence of inflations does ---------------------------------------------------

  function Inflations(steps: seq<Step>, p: Program): Program {
    if steps == [] then p else Inflated(steps[|steps| - 1], Inflations(steps[..|steps| - 1], p))
  }

  /** The indexes that a name's array has gained: the values of the variables it was inflated for, the last
      one first. */
  function Gained(steps: seq<Step>, id: Id, env: Env): seq<int> {
    if steps == [] then []
    else
      var step, rest := steps[|steps| - 1], Gained(steps[..|steps| - 1], id, env);
      if id in step.added && step.i in env then [env[step.i]] + rest else rest
  }

  /** The environment gives a value to every variable that the name is inflated for. */
  ghost predicate Gives(steps: seq<Step>, id: Id, env: Env) {
    forall k :: 0 <= k < |steps| && id in steps[k].added ==> steps[k].i in env && InRange(steps[k].i, env[steps[k].i])
  }

  ghost predicate SameElement(w: World, p: Program, q: Program, d: nat, steps: seq<Step>, id: Id, env: Env, index: seq<int>) {
    Eval(w, q, d, Ref(id), env, Gained(steps, id, env) + index) == Eval(w, p, d, Ref(id), env, index)
  }

  /** Every name, at the indexes gained and then the old index, is what it was where the variables had those
      values.  A name that was not inflated gains no index. */
  ghost predicate SameElements(p: Program, q: Program, steps: seq<Step>) {
    forall w, d, id, env, index :: Gives(steps, id, env) ==> SameElement(w, p, q, d, steps, id, env, index)
  }

  lemma StepKeepsElements(p: Program, q: Program, steps: seq<Step>, step: Step, n: nat)
    requires SameElements(p, q, steps) && Valid(step, q, n)
    ensures SameElements(p, Inflated(step, q), steps + [step])
  {
    var all := steps + [step];
    assert all[..|all| - 1] == steps && all[|all| - 1] == step;
    forall w, d, id, env, index | Gives(all, id, env)
      ensures SameElement(w, p, Inflated(step, q), d, all, id, env, index)
    {
      assert Gives(steps, id, env) by {
        forall k | 0 <= k < |steps| && id in steps[k].added
          ensures steps[k].i in env && InRange(steps[k].i, env[steps[k].i])
        {
          assert all[k] == steps[k];
        }
      }
      var unlifted := Gained(steps, id, env) + index;
      assert SameElement(w, p, q, d, steps, id, env, index);
      if id in step.added {
        assert all[|steps|] == step;
        InflatedElement(w, step, q, n, d, id, env, env, unlifted);
        assert Gained(all, id, env) + index == [env[step.i]] + unlifted;
      } else {
        InflationPreservesMeaning(w, step, q, n, d, id, env, env, unlifted);
      }
    }
  }

  /** The inflation for a variable: of its source, and of the closure of the names in which it is free. */
  ghost predicate LiftsFor(p: Program, n: nat, step: Step) {
    && step.source in p && step.i in Binders(p[step.source]) && FreeIn(p, step.i) != {}
    && step.source !in step.added
    && (forall x :: x in step.added ==> step.added[x].range == step.i.range && step.added[x].name >= n)
    && exists refs :: Reflects(refs, p)
         && Involves(refs, Info(step.i, step.source, FreeIn(p, step.i)), step.added.Keys + {step.source})
  }

  /** One inflation for each variable that is free somewhere. */
  ghost predicate IsLifting(p: Program, n: nat, steps: seq<Step>) {
    && (forall k :: 0 <= k < |steps| ==> LiftsFor(p, n, steps[k]))
    && (forall j, k :: 0 <= j < k < |steps| ==> steps[j].i != steps[k].i)
  }

  ghost predicate HasStep(steps: seq<Step>, v: Variable) {
    exists k :: 0 <= k < |steps| && steps[k].i == v
  }

  /** All names involved but those in todo have their new definitions. */
  ghost predicate PartlyInflated(step: Step, lifted: set<Id>, todo: set<Id>, p: Program, q: Program) {
    p.Keys == q.Keys && forall id :: id in p ==> q[id] == PartDefinition(step, lifted, todo, id, p[id])
  }

  ghost function PartDefinition(step: Step, lifted: set<Id>, todo: set<Id>, id: Id, e: Expr): Expr {
    if id in step.added then Array([step.added[id]], Rewrite(step.i, lifted, e, step.added[id]))
    else if id == step.source && id !in todo then Rewrite(step.i, lifted, e, step.i)
    else e
  }

  lemma AllInflated(step: Step, p: Program, q: Program)
    requires PartlyInflated(step, step.added.Keys, {}, p, q)
    ensures q == Inflated(step, p)
  {
  }

  ghost predicate NewVariables(step: Step, from: nat, to: nat) {
    forall x :: x in step.added ==> step.added[x].range == step.i.range && from <= step.added[x].name < to
  }

  lemma NextInflated(step: Step, lifted: set<Id>, todo: set<Id>, p: Program, q: Program, id: Id, v: Variable)
    requires PartlyInflated(step, lifted, todo, p, q) && id in todo && id in p && id !in step.added
    ensures id == step.source ==>
      PartlyInflated(step, lifted, todo - {id}, p, q[id := Rewrite(step.i, lifted, q[id], step.i)])
    ensures id != step.source ==>
      PartlyInflated(step.(added := step.added[id := v]), lifted, todo - {id}, p, q[id := Array([v], Rewrite(step.i, lifted, q[id], v))])
  {
    assert q[id] == PartDefinition(step, lifted, todo, id, p[id]);
  }

  predicate IsFor(infos: seq<Info>, k: int, b: (Id, Variable)) {
    0 <= k < |infos| && infos[k].source == b.0 && infos[k].v == b.1
  }

  ghost predicate AreInfos(p: Program, infos: seq<Info>) {
    && (forall k :: 0 <= k < |infos| ==>
          (infos[k].source, infos[k].v) in AllBinders(p) && infos[k].free == FreeIn(p, infos[k].v))
    && (forall b :: b in AllBinders(p) ==> exists k :: IsFor(infos, k, b))
    && (forall j, k :: 0 <= j < k < |infos| ==> (infos[j].source, infos[j].v) != (infos[k].source, infos[k].v))
  }

  method AnalyzeFreeVars(p: Program) returns (infos: seq<Info>)
    ensures AreInfos(p, infos)
  {
    infos := [];
    var todo := AllBinders(p);
    while todo != {}
      invariant todo <= AllBinders(p)
      invariant forall k :: 0 <= k < |infos| ==>
        (infos[k].source, infos[k].v) in AllBinders(p) - todo && infos[k].free == FreeIn(p, infos[k].v)
      invariant forall b :: b in AllBinders(p) - todo ==> exists k :: IsFor(infos, k, b)
      invariant forall j, k :: 0 <= j < k < |infos| ==> (infos[j].source, infos[j].v) != (infos[k].source, infos[k].v)
    {
      var b :| b in todo;
      ghost var before, rest := infos, todo;
      todo := todo - {b};
      infos := infos + [Info(b.1, b.0, FreeIn(p, b.1))];
      forall x | x in AllBinders(p) - todo ensures exists k :: IsFor(infos, k, x) {
        if x == b {
          assert IsFor(infos, |before|, x);
        } else {
          assert x in AllBinders(p) - rest;
          var k :| IsFor(before, k, x);
          assert IsFor(infos, k, x);
        }
      }
    }
    assert AllBinders(p) - todo == AllBinders(p);
  }

  /** What holds when the first k variables have been inflated for. */
  ghost predicate Progress(was: Program, p: Program, n: nat, refs: References, infos: seq<Info>, k: nat) {
    && AreInfos(was, infos) && LexicallyScoped(was) && Reflects(refs, was)
    && k <= |infos| && p.Keys == was.Keys && Sound(refs, p, n)
    && (forall id :: id in was ==> Below(was[id], n))
    && (forall j :: k <= j < |infos| ==> Suited(refs, infos[j], p))
    && (forall id :: id in p ==> FreeVars(p[id]) <= FreeVars(was[id]))
    && (forall id, j :: id in p && 0 <= j < k ==> infos[j].v !in FreeVars(p[id]))
  }

  ghost predicate HasInfo(infos: seq<Info>, k: nat, v: Variable) {
    exists i :: 0 <= i < k && i < |infos| && infos[i].v == v
  }

  /** The inflations so far. */
  ghost predicate Lifted(was: Program, p: Program, from: nat, n: nat, infos: seq<Info>, k: nat, steps: seq<Step>) {
    && from <= n && k <= |infos|
    && p == Inflations(steps, was) && SameElements(was, p, steps) && IsLifting(was, from, steps)
    && (forall j :: 0 <= j < |steps| ==> HasInfo(infos, k, steps[j].i))
    && (forall i :: 0 <= i < k && infos[i].free != {} ==> HasStep(steps, infos[i].v))
  }

  lemma ProgressAtFirst(p: Program, n: nat, refs: References, infos: seq<Info>)
    requires LexicallyScoped(p) && Reflects(refs, p) && AreInfos(p, infos)
    requires forall id :: id in p ==> Below(p[id], n)
    ensures Progress(p, p, n, refs, infos, 0) && Lifted(p, p, n, n, infos, 0, [])
  {
    forall j | 0 <= j < |infos| ensures Suited(refs, infos[j], p) {
      assert infos[j] == Info(infos[j].v, infos[j].source, FreeIn(p, infos[j].v));
    }
    forall w, d, id, env, index ensures SameElement(w, p, p, d, [], id, env, index) {
      assert Gained([], id, env) + index == index;
    }
  }

  /** A variable that is free nowhere needs nothing. */
  lemma NothingToDo(was: Program, p: Program, from: nat, n: nat, refs: References, infos: seq<Info>, k: nat, steps: seq<Step>)
    requires Progress(was, p, n, refs, infos, k) && k < |infos| && infos[k].free == {}
    requires Lifted(was, p, from, n, infos, k, steps)
    ensures Progress(was, p, n, refs, infos, k + 1) && Lifted(was, p, from, n, infos, k + 1, steps)
  {
    assert Suited(refs, infos[k], p);
    InfosStay(infos, k, steps);
  }

  lemma InfosStay(infos: seq<Info>, k: nat, steps: seq<Step>)
    requires forall j :: 0 <= j < |steps| ==> HasInfo(infos, k, steps[j].i)
    ensures forall j :: 0 <= j < |steps| ==> HasInfo(infos, k + 1, steps[j].i)
  {
    forall j | 0 <= j < |steps| ensures HasInfo(infos, k + 1, steps[j].i) {
      var i :| 0 <= i < k && i < |infos| && infos[i].v == steps[j].i;
      assert i < k + 1;
    }
  }

  lemma VariablesDiffer(p: Program, infos: seq<Info>, i: nat, k: nat)
    requires AreInfos(p, infos) && LexicallyScoped(p) && i < k < |infos|
    ensures infos[i].v != infos[k].v
  {
    assert (infos[i].source, infos[i].v) in AllBinders(p) && (infos[k].source, infos[k].v) in AllBinders(p);
  }

  lemma StepLifts(was: Program, infos: seq<Info>, k: nat, refs: References, step: Step, from: nat, n: nat)
    requires AreInfos(was, infos) && Reflects(refs, was) && k < |infos| && infos[k].free != {}
    requires IsStep(refs, infos[k], step, n) && from <= n
    ensures LiftsFor(was, from, step)
  {
    assert (infos[k].source, infos[k].v) in AllBinders(was);
    assert infos[k] == Info(step.i, step.source, FreeIn(was, step.i));
  }

  lemma StepIsNew(was: Program, infos: seq<Info>, k: nat, steps: seq<Step>, v: Variable)
    requires AreInfos(was, infos) && LexicallyScoped(was) && k < |infos| && v == infos[k].v
    requires forall j :: 0 <= j < |steps| ==> HasInfo(infos, k, steps[j].i)
    ensures forall j :: 0 <= j < |steps| ==> steps[j].i != v
  {
    forall j | 0 <= j < |steps| ensures steps[j].i != v {
      var i :| 0 <= i < k && i < |infos| && infos[i].v == steps[j].i;
      VariablesDiffer(was, infos, i, k);
    }
  }

  lemma StepsStay(steps: seq<Step>, step: Step, v: Variable)
    ensures HasStep(steps + [step], v) <==> HasStep(steps, v) || v == step.i
  {
    var all := steps + [step];
    if HasStep(steps, v) {
      var j :| 0 <= j < |steps| && steps[j].i == v;
      assert all[j] == steps[j];
    }
    assert all[|steps|] == step;
  }

  lemma LiftingGrows(was: Program, from: nat, infos: seq<Info>, k: nat, steps: seq<Step>, step: Step)
    requires IsLifting(was, from, steps) && LiftsFor(was, from, step) && k < |infos| && step.i == infos[k].v
    requires AreInfos(was, infos) && LexicallyScoped(was)
    requires forall j :: 0 <= j < |steps| ==> HasInfo(infos, k, steps[j].i)
    requires forall i :: 0 <= i < k && infos[i].free != {} ==> HasStep(steps, infos[i].v)
    ensures IsLifting(was, from, steps + [step])
    ensures forall j :: 0 <= j < |steps + [step]| ==> HasInfo(infos, k + 1, (steps + [step])[j].i)
    ensures forall i :: 0 <= i < k + 1 && infos[i].free != {} ==> HasStep(steps + [step], infos[i].v)
  {
    InfosStay(infos, k, steps);
    StepIsNew(was, infos, k, steps, step.i);
    assert HasInfo(infos, k + 1, step.i);
    forall i | 0 <= i < k + 1 && infos[i].free != {} ensures HasStep(steps + [step], infos[i].v) {
      StepsStay(steps, step, infos[i].v);
    }
  }

  lemma InflationsGrow(was: Program, steps: seq<Step>, step: Step)
    ensures Inflations(steps + [step], was) == Inflated(step, Inflations(steps, was))
  {
    var all := steps + [step];
    assert all[..|all| - 1] == steps && all[|all| - 1] == step;
  }

  lemma OneMoreLifted(was: Program, p: Program, from: nat, n: nat, refs: References, infos: seq<Info>, k: nat, steps: seq<Step>,
                      step: Step, m: nat)
    requires Progress(was, p, n, refs, infos, k) && k < |infos| && infos[k].free != {}
    requires Lifted(was, p, from, n, infos, k, steps)
    requires IsStep(refs, infos[k], step, n) && m >= n
    ensures Lifted(was, Inflated(step, p), from, m, infos, k + 1, steps + [step])
  {
    StepIsValid(refs, infos[k], step, p, n);
    StepKeepsElements(was, p, steps, step, n);
    InflationsGrow(was, steps, step);
    StepLifts(was, infos, k, refs, step, from, n);
    LiftingGrows(was, from, infos, k, steps, step);
  }

  lemma {:induction false} BindersBelow(e: Expr, n: nat, v: Variable)
    requires Below(e, n) && v in Binders(e)
    ensures v.name < n
  {
    match e
    case Ref(_) =>
    case Var(_) =>
    case Operation(_, es) =>
      var k :| 0 <= k < |es| && v in Binders(es[k]);
      BindersBelow(es[k], n, v);
    case Select(g, a, o) => BindersBelow(if v in Binders(g) then g else if v in Binders(a) then a else o, n, v);
    case Array(vars, body) =>
      if v !in vars {
        BindersBelow(body, n, v);
      }
    case App(t, es) =>
      if v in Binders(t) {
        BindersBelow(t, n, v);
      } else {
        var k :| 0 <= k < |es| && v in Binders(es[k]);
        BindersBelow(es[k], n, v);
      }
  }

  lemma BoundBelow(p: Program, infos: seq<Info>, j: nat, n: nat)
    requires AreInfos(p, infos) && j < |infos| && forall id :: id in p ==> Below(p[id], n)
    ensures infos[j].v.name < n && infos[j].source in p && infos[j].free <= p.Keys
  {
    assert (infos[j].source, infos[j].v) in AllBinders(p);
    BindersBelow(p[infos[j].source], n, infos[j].v);
  }

  lemma UsersAreNames(refs: References, p: Program)
    requires Reflects(refs, p)
    ensures forall b :: Users(refs, b) <= p.Keys
  {
  }

  lemma OthersStaySuited(was: Program, p: Program, n: nat, refs: References, infos: seq<Info>, k: nat, step: Step)
    requires Progress(was, p, n, refs, infos, k) && k < |infos| && IsStep(refs, infos[k], step, n)
    ensures forall j :: k + 1 <= j < |infos| ==> Suited(refs, infos[j], Inflated(step, p))
  {
    var info := infos[k];
    forall j | k + 1 <= j < |infos| ensures Suited(refs, infos[j], Inflated(step, p)) {
      BoundBelow(was, infos, j, n);
      assert (infos[j].source, infos[j].v) in AllBinders(was) && (info.source, info.v) in AllBinders(was);
      assert infos[j].v != info.v;
      SuitedStays(refs, info, step, p, n, infos[j]);
    }
  }

  lemma FewerFree(was: Program, p: Program, n: nat, refs: References, infos: seq<Info>, k: nat, step: Step)
    requires Progress(was, p, n, refs, infos, k) && k < |infos| && IsStep(refs, infos[k], step, n)
    ensures forall id :: id in p ==> FreeVars(Inflated(step, p)[id]) <= FreeVars(was[id])
    ensures forall id, j :: id in p && 0 <= j < k + 1 ==> infos[j].v !in FreeVars(Inflated(step, p)[id])
  {
    forall id | id in p
      ensures FreeVars(Inflated(step, p)[id]) <= FreeVars(was[id])
      ensures forall j :: 0 <= j < k + 1 ==> infos[j].v !in FreeVars(Inflated(step, p)[id])
    {
      DefinitionIsClosed(refs, infos[k], step, p, n, id);
      assert FreeVars(p[id]) <= FreeVars(was[id]);
    }
  }

  lemma Progresses(was: Program, p: Program, n: nat, refs: References, infos: seq<Info>, k: nat, step: Step, m: nat)
    requires Progress(was, p, n, refs, infos, k) && k < |infos|
    requires IsStep(refs, infos[k], step, n) && NewVariables(step, n, m) && m >= n
    ensures Progress(was, Inflated(step, p), m, refs, infos, k + 1)
  {
    OthersStaySuited(was, p, n, refs, infos, k, step);
    FewerFree(was, p, n, refs, infos, k, step);
    SoundStays(refs, infos[k], step, p, n, m);
    forall id | id in was ensures Below(was[id], m) {
      BelowMore(was[id], n, m);
    }
  }

  lemma InfoOf(was: Program, infos: seq<Info>, id: Id, v: Variable) returns (k: nat)
    requires AreInfos(was, infos) && LexicallyScoped(was) && id in was && v in FreeVars(was[id])
    ensures k < |infos| && infos[k].v == v && infos[k].free != {}
  {
    var s :| s in was && v in Binders(was[s]);
    assert (s, v) in AllBinders(was);
    k :| IsFor(infos, k, (s, v));
    assert id in FreeIn(was, v);
  }

  lemma VariableIsBound(was: Program, p: Program, n: nat, refs: References, infos: seq<Info>, id: Id, v: Variable)
    requires Progress(was, p, n, refs, infos, |infos|) && id in p
    ensures v !in FreeVars(p[id])
  {
    assert FreeVars(p[id]) <= FreeVars(was[id]);
    if v in FreeVars(was[id]) {
      var k := InfoOf(was, infos, id, v);
    }
  }

  lemma NothingIsFree(was: Program, p: Program, n: nat, refs: References, infos: seq<Info>)
    requires Progress(was, p, n, refs, infos, |infos|)
    ensures AllClosed(p)
  {
    forall id | id in p ensures FreeVars(p[id]) == {} {
      forall v ensures v !in FreeVars(p[id]) {
        VariableIsBound(was, p, n, refs, infos, id, v);
      }
    }
  }

  lemma FreeHaveSteps(was: Program, p: Program, from: nat, n: nat, infos: seq<Info>, steps: seq<Step>)
    requires AreInfos(was, infos) && LexicallyScoped(was) && Lifted(was, p, from, n, infos, |infos|, steps)
    ensures forall id, v :: id in was && v in FreeVars(was[id]) ==> HasStep(steps, v)
  {
    forall id, v | id in was && v in FreeVars(was[id]) ensures HasStep(steps, v) {
      var k := InfoOf(was, infos, id, v);
    }
  }

  /** At the end the environment of a mention no longer matters. */
  lemma ElementsWithoutEnv(p: Program, q: Program, steps: seq<Step>)
    requires SameElements(p, q, steps) && AllClosed(q)
    ensures LiftedElements(p, q, steps)
  {
    forall w, d, id, env, index | Gives(steps, id, env)
      ensures LiftedElement(w, p, q, d, steps, id, env, index)
    {
      assert SameElement(w, p, q, d, steps, id, env, index);
      ClosedNeedsNoEnv(w, q, d, Ref(id), env, map[], Gained(steps, id, env) + index);
    }
  }

  ghost predicate LiftedElement(w: World, p: Program, q: Program, d: nat, steps: seq<Step>, id: Id, env: Env, index: seq<int>) {
    Eval(w, q, d, Ref(id), map[], Gained(steps, id, env) + index) == Eval(w, p, d, Ref(id), env, index)
  }

  /** Program q, mentioned anywhere, has the elements of p: at the indexes gained and then the old index, the
      element that p has where the variables have those values. */
  ghost predicate LiftedElements(p: Program, q: Program, steps: seq<Step>) {
    forall w, d, id, env, index :: Gives(steps, id, env) ==> LiftedElement(w, p, q, d, steps, id, env, index)
  }

  class ArrayInflater {
    var exprs: Program
    var next: nat
    var references: References

    constructor (p: Program, n: nat)
      ensures exprs == p && next == n
    {
      exprs, next, references := p, n, map[];
    }

    /** Rewrites the definition of one name (array_inflate::inflate). */
    method Inflate(info: Info, involved: set<Id>, id: Id) returns (added: Variable)
      requires id in exprs
      modifies this`exprs, this`next
      ensures added == Variable(old(next), info.v.range) && next == old(next) + 1
      ensures exprs == old(exprs)[id :=
        var lifted := involved - {info.source};
        if id != info.source then Array([added], Rewrite(info.v, lifted, old(exprs)[id], added))
        else Rewrite(info.v, lifted, old(exprs)[id], info.v)]
    {
      added := Variable(next, info.v.range);
      next := next + 1;
      if id != info.source {
        exprs := exprs[id := Array([added], Rewrite(info.v, involved - {info.source}, exprs[id], added))];
      } else {
        exprs := exprs[id := Rewrite(info.v, involved - {info.source}, exprs[id], info.v)];
      }
    }

    method InflateFor(info: Info) returns (step: Step)
      requires info.v.name < next && info.source in exprs && info.free <= exprs.Keys
      requires forall b :: Users(references, b) <= exprs.Keys
      modifies this`exprs, this`next
      ensures next >= old(next) && exprs == Inflated(step, old(exprs))
      ensures IsStep(references, info, step, old(next)) && NewVariables(step, old(next), next)
    {
      var involved := CloseUnderReferences(references, info.free + {info.source}, {info.source});
      assert Closed(references, exprs.Keys, {info.source});
      step := InflateAll(info, involved);
      assert step.added.Keys + {info.source} == involved;
    }

    method InflateAll(info: Info, involved: set<Id>) returns (step: Step)
      requires info.source in involved && involved <= exprs.Keys
      modifies this`exprs, this`next
      ensures step.i == info.v && step.source == info.source && step.added.Keys == involved - {info.source}
      ensures next >= old(next) && NewVariables(step, old(next), next)
      ensures exprs == Inflated(step, old(exprs))
    {
      ghost var was, from := exprs, next;
      ghost var lifted := involved - {info.source};
      step := Step(info.v, info.source, map[]);
      var todo := involved;
      while todo != {}
        invariant todo <= involved <= was.Keys && next >= from && step.i == info.v && step.source == info.source
        invariant step.added.Keys == lifted - todo
        invariant NewVariables(step, from, next)
        invariant PartlyInflated(step, lifted, todo, was, exprs)
      {
        var id :| id in todo;
        ghost var before := exprs;
        var v := Inflate(info, involved, id);
        NextInflated(step, lifted, todo, was, before, id, v);
        if id != info.source {
          step := step.(added := step.added[id := v]);
        }
        todo := todo - {id};
      }
      assert step.added.Keys == lifted;
      AllInflated(step, was, exprs);
    }

    /** One inflation for each variable that is free somewhere, after which none is.  Every name has the
        elements it had, in the row of the variables' values if it was inflated. */
    method Process() returns (ghost steps: seq<Step>)
      requires LexicallyScoped(exprs) && forall id :: id in exprs ==> Below(exprs[id], next)
      modifies this
      ensures exprs == Inflations(steps, old(exprs)) && exprs.Keys == old(exprs).Keys
      ensures IsLifting(old(exprs), old(next), steps)
      ensures forall id, v :: id in old(exprs) && v in FreeVars(old(exprs)[id]) ==> HasStep(steps, v)
      ensures AllClosed(exprs)
      ensures LiftedElements(old(exprs), exprs, steps)
    {
      ghost var was, from := exprs, next;
      references := AnalyzeReferences(exprs);
      var infos := AnalyzeFreeVars(exprs);
      ProgressAtFirst(exprs, next, references, infos);
      steps := [];
      for k := 0 to |infos|
        invariant Progress(was, exprs, next, references, infos, k)
        invariant Lifted(was, exprs, from, next, infos, k, steps)
      {
        ghost var before, n := exprs, next;
        if infos[k].free != {} {
          BoundBelow(was, infos, k, next);
          UsersAreNames(references, was);
          var step := InflateFor(infos[k]);
          Progresses(was, before, n, references, infos, k, step, next);
          OneMoreLifted(was, before, from, n, references, infos, k, steps, step, next);
          steps := steps + [step];
        } else {
          NothingToDo(was, exprs, from, next, references, infos, k, steps);
        }
      }
      NothingIsFree(was, exprs, next, references, infos);
      FreeHaveSteps(was, exprs, from, next, infos, steps);
      ElementsWithoutEnv(was, exprs, steps);
    }
  }
}
