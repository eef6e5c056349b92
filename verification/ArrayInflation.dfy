/** frontend/array_inflate.cpp: names whose definitions use a variable of an enclosing array become
    arrays over that variable.

    References are resolved with the variables of the place they occur in, as they are between
    lift_local_ids, which makes local names global, and the end of this pass, after which no definition
    needs them.
 */
module ArrayInflation {
  import opened Options

  type Id = nat

  /** range is -1 if unbounded. */
  datatype Variable = Variable(name: nat, range: int)

  /** Operation stands for primitives, constants, `++` and enumerations; Select for a chain of cases. */
  datatype Expr =
    | Ref(id: Id)
    | Var(v: Variable)
    | Operation(op: nat, operands: seq<Expr>)
    | Select(guard: Expr, value: Expr, otherwise: Expr)
    | Array(vars: seq<Variable>, body: Expr)
    | App(target: Expr, args: seq<Expr>)

  type Program = map<Id, Expr>

  // ---- Names and variables of an expression -------------------------------------------------

  function Mentions(e: Expr): set<Id> {
    match e
    case Ref(id) => {id}
    case Var(_) => {}
    case Operation(_, es) => set k, id | 0 <= k < |es| && id in Mentions(es[k]) :: id
    case Select(g, v, o) => Mentions(g) + Mentions(v) + Mentions(o)
    case Array(_, body) => Mentions(body)
    case App(t, es) => Mentions(t) + set k, id | 0 <= k < |es| && id in Mentions(es[k]) :: id
  }

  function Binders(e: Expr): set<Variable> {
    match e
    case Ref(_) => {}
    case Var(_) => {}
    case Operation(_, es) => set k, v | 0 <= k < |es| && v in Binders(es[k]) :: v
    case Select(g, v, o) => Binders(g) + Binders(v) + Binders(o)
    case Array(vars, body) => (set v | v in vars) + Binders(body)
    case App(t, es) => Binders(t) + set k, v | 0 <= k < |es| && v in Binders(es[k]) :: v
  }

  function FreeVars(e: Expr): set<Variable> {
    match e
    case Ref(_) => {}
    case Var(v) => {v}
    case Operation(_, es) => set k, v | 0 <= k < |es| && v in FreeVars(es[k]) :: v
    case Select(g, v, o) => FreeVars(g) + FreeVars(v) + FreeVars(o)
    case Array(vars, body) => FreeVars(body) - set v | v in vars
    case App(t, es) => FreeVars(t) + set k, v | 0 <= k < |es| && v in FreeVars(es[k]) :: v
  }

  // ---- Meaning ------------------------------------------------------------------------------

  /** Which elements of its operands an operation reads for one of its own, and what it makes of them. */
  datatype World = World(needs: (nat, seq<int>) -> seq<(nat, seq<int>)>, result: (nat, seq<int>, seq<int>) -> int)

  type Env = map<Variable, int>

  predicate InRange(v: Variable, k: int) {
    0 <= k && (v.range >= 0 ==> k < v.range)
  }

  function Bind(env: Env, vars: seq<Variable>, index: seq<int>): Env
    requires |vars| <= |index|
  {
    if vars == [] then env
    else Bind(env, vars[..|vars| - 1], index)[vars[|vars| - 1] := index[|vars| - 1]]
  }

  /** The element of an expression's value at an index, to a given depth of references. */
  function Eval(w: World, p: Program, depth: nat, e: Expr, env: Env, index: seq<int>): Option<int>
    decreases depth, e
  {
    match e
    case Ref(id) => if depth == 0 || id !in p then None else Eval(w, p, depth - 1, p[id], env, index)
    case Var(v) => if v in env && index == [] then Some(env[v]) else None
    case Operation(op, es) =>
      (match EvalNeeds(w, p, depth, es, env, w.needs(op, index))
       case None => None
       case Some(values) => Some(w.result(op, index, values)))
    case Select(g, v, o) =>
      (match Eval(w, p, depth, g, env, [])
       case None => None
       case Some(c) => if c != 0 then Eval(w, p, depth, v, env, index) else Eval(w, p, depth, o, env, index))
    case Array(vars, body) =>
      if |vars| <= |index| && forall k :: 0 <= k < |vars| ==> InRange(vars[k], index[k])
      then Eval(w, p, depth, body, Bind(env, vars, index), index[|vars|..])
      else None
    case App(t, es) =>
      match EvalArgs(w, p, depth, es, env)
      case None => None
      case Some(values) => Eval(w, p, depth, t, env, values + index)
  }

  function EvalNeeds(w: World, p: Program, depth: nat, es: seq<Expr>, env: Env, needs: seq<(nat, seq<int>)>)
      : Option<seq<int>>
    decreases depth, es, |needs|
  {
    if needs == [] then Some([])
    else if needs[0].0 >= |es| then None
    else
      match (Eval(w, p, depth, es[needs[0].0], env, needs[0].1), EvalNeeds(w, p, depth, es, env, needs[1..]))
      case (Some(v), Some(rest)) => Some([v] + rest)
      case _ => None
  }

  function EvalArgs(w: World, p: Program, depth: nat, es: seq<Expr>, env: Env): Option<seq<int>>
    decreases depth, es
  {
    if es == [] then Some([])
    else
      match (EvalArgs(w, p, depth, es[..|es| - 1], env), Eval(w, p, depth, es[|es| - 1], env, []))
      case (Some(rest), Some(v)) => Some(rest + [v])
      case _ => None
  }

  // ---- Inflation for one variable -----------------------------------------------------------

  /** added gives the new variable of each name to be inflated: all involved names but the source. */
  datatype Step = Step(i: Variable, source: Id, added: map<Id, Variable>)

  function Substitute(step: Step, id: Id): Variable {
    if id in step.added then step.added[id] else step.i
  }

  function Rewrite(i: Variable, lifted: set<Id>, e: Expr, u: Variable): Expr {
    match e
    case Ref(id) => if id in lifted then App(e, [Var(u)]) else e
    case Var(v) => if v == i then Var(u) else e
    case Operation(op, es) => Operation(op, RewriteAll(i, lifted, es, u))
    case Select(g, v, o) => Select(Rewrite(i, lifted, g, u), Rewrite(i, lifted, v, u), Rewrite(i, lifted, o, u))
    case Array(vars, body) => Array(vars, Rewrite(i, lifted, body, u))
    case App(t, es) => App(Rewrite(i, lifted, t, u), RewriteAll(i, lifted, es, u))
  }

  function RewriteAll(i: Variable, lifted: set<Id>, es: seq<Expr>, u: Variable): (r: seq<Expr>)
    ensures |r| == |es| && forall k :: 0 <= k < |es| ==> r[k] == Rewrite(i, lifted, es[k], u)
  {
    if es == [] then [] else RewriteAll(i, lifted, es[..|es| - 1], u) + [Rewrite(i, lifted, es[|es| - 1], u)]
  }

  function Definition(step: Step, id: Id, e: Expr): Expr {
    if id in step.added then Array([step.added[id]], Rewrite(step.i, step.added.Keys, e, step.added[id]))
    else if id == step.source then Rewrite(step.i, step.added.Keys, e, step.i)
    else e
  }

  function Inflated(step: Step, p: Program): Program {
    map id | id in p :: Definition(step, id, p[id])
  }

  /** The variable, and the names that depend on it, occur only inside the array that binds it. */
  predicate Scoped(i: Variable, lifted: set<Id>, e: Expr) {
    match e
    case Ref(id) => id !in lifted
    case Var(v) => v != i
    case Operation(_, es) => forall k :: 0 <= k < |es| ==> Scoped(i, lifted, es[k])
    case Select(g, v, o) => Scoped(i, lifted, g) && Scoped(i, lifted, v) && Scoped(i, lifted, o)
    case Array(vars, body) => i in vars || Scoped(i, lifted, body)
    case App(t, es) => Scoped(i, lifted, t) && forall k :: 0 <= k < |es| ==> Scoped(i, lifted, es[k])
  }

  /** All variables are numbered below n. */
  predicate Below(e: Expr, n: nat) {
    match e
    case Ref(_) => true
    case Var(v) => v.name < n
    case Operation(_, es) => forall k :: 0 <= k < |es| ==> Below(es[k], n)
    case Select(g, v, o) => Below(g, n) && Below(v, n) && Below(o, n)
    case Array(vars, body) => (forall v :: v in vars ==> v.name < n) && Below(body, n)
    case App(t, es) => Below(t, n) && forall k :: 0 <= k < |es| ==> Below(es[k], n)
  }

  /** n numbers the first new variable. */
  ghost predicate Valid(step: Step, p: Program, n: nat) {
    && step.i.name < n && step.source !in step.added
    && (forall x :: x in step.added ==> step.added[x].range == step.i.range && step.added[x].name >= n)
    && (forall id :: id in p ==> Below(p[id], n))
    && (forall id :: id in p && id != step.source ==> step.i !in Binders(p[id]))
    && (forall id :: id in p && id !in step.added ==> Scoped(step.i, step.added.Keys, p[id]))
  }

  // ---- It preserves meaning -----------------------------------------------------------------

  /** Environments agree on the program's own variables other than the one inflated for. */
  ghost predicate Agree(step: Step, n: nat, env: Env, env': Env) {
    forall u: Variable :: u != step.i && u.name < n ==> (u in env <==> u in env') && (u in env ==> env[u] == env'[u])
  }

  /** In definition id, the substitute has the value of the variable. */
  ghost predicate Linked(step: Step, id: Id, env: Env, env': Env) {
    var u := Substitute(step, id);
    && (id in step.added || id == step.source)
    && step.i in env && InRange(step.i, env[step.i])
    && u in env' && env'[u] == env[step.i]
  }

  /** What the simulation needs to know of an expression e in definition id. */
  ghost predicate Ready(step: Step, n: nat, id: Id, e: Expr, env: Env, env': Env) {
    && Below(e, n) && Agree(step, n, env, env')
    && (id != step.source ==> step.i !in Binders(e))
    && (Linked(step, id, env, env') || Scoped(step.i, step.added.Keys, e))
  }

  ghost predicate AllReady(step: Step, n: nat, id: Id, es: seq<Expr>, env: Env, env': Env) {
    forall k :: 0 <= k < |es| ==> Ready(step, n, id, es[k], env, env')
  }

  lemma {:induction false} BindKeeps(env: Env, env': Env, vars: seq<Variable>, index: seq<int>, u: Variable)
    requires |vars| <= |index|
    ensures u !in vars ==> (u in Bind(env, vars, index) <==> u in env) && (u in env ==> Bind(env, vars, index)[u] == env[u])
    ensures u in vars ==> u in Bind(env, vars, index) && u in Bind(env', vars, index)
    ensures u in vars ==> Bind(env, vars, index)[u] == Bind(env', vars, index)[u]
    ensures u in vars && (forall k :: 0 <= k < |vars| ==> InRange(vars[k], index[k])) ==> InRange(u, Bind(env, vars, index)[u])
  {
    if vars != [] {
      BindKeeps(env, env', vars[..|vars| - 1], index, u);
    }
  }

  /** Inside an array of definition id. */
  lemma ReadyInside(step: Step, n: nat, id: Id, vars: seq<Variable>, body: Expr, env: Env, env': Env, index: seq<int>)
    requires Ready(step, n, id, Array(vars, body), env, env') && |vars| <= |index|
    requires step.source !in step.added && (id in step.added ==> step.added[id].name >= n)
    requires forall k :: 0 <= k < |vars| ==> InRange(vars[k], index[k])
    ensures Ready(step, n, id, body, Bind(env, vars, index), Bind(env', vars, index))
  {
    var inner, inner' := Bind(env, vars, index), Bind(env', vars, index);
    forall u: Variable | u != step.i && u.name < n
      ensures (u in inner <==> u in inner') && (u in inner ==> inner[u] == inner'[u])
    {
      BindKeeps(env, env', vars, index, u);
      BindKeeps(env', env, vars, index, u);
    }
    BindKeeps(env, env', vars, index, step.i);
    BindKeeps(env', env, vars, index, Substitute(step, id));
    assert step.i in vars ==> step.i in Binders(Array(vars, body));
    if id in step.added {
      assert Substitute(step, id) !in vars;
    }
    assert Linked(step, id, inner, inner') || Scoped(step.i, step.added.Keys, body);
  }

  /** Outside the names involved, nothing is rewritten. */
  lemma {:induction false} RewriteIdle(step: Step, e: Expr)
    requires step.i !in Binders(e) && Scoped(step.i, step.added.Keys, e)
    ensures Rewrite(step.i, step.added.Keys, e, step.i) == e
  {
    match e
    case Ref(_) =>
    case Var(_) =>
    case Operation(_, es) => RewriteAllIdle(step, es);
    case Select(g, v, o) =>
      RewriteIdle(step, g);
      RewriteIdle(step, v);
      RewriteIdle(step, o);
    case Array(_, body) => RewriteIdle(step, body);
    case App(t, es) =>
      RewriteIdle(step, t);
      RewriteAllIdle(step, es);
  }

  lemma {:induction false} RewriteAllIdle(step: Step, es: seq<Expr>)
    requires forall k :: 0 <= k < |es| ==> step.i !in Binders(es[k]) && Scoped(step.i, step.added.Keys, es[k])
    ensures RewriteAll(step.i, step.added.Keys, es, step.i) == es
  {
    forall k | 0 <= k < |es| { RewriteIdle(step, es[k]); }
  }

  /** Expression e of definition id, rewritten, has the element that it had. */
  ghost predicate Same(w: World, step: Step, p: Program, d: nat, id: Id, e: Expr, env: Env, env': Env, index: seq<int>) {
    Eval(w, Inflated(step, p), d, Rewrite(step.i, step.added.Keys, e, Substitute(step, id)), env', index) == Eval(w, p, d, e, env, index)
  }

  lemma {:induction false} Simulates(w: World, step: Step, p: Program, n: nat, d: nat, id: Id, e: Expr, env: Env, env': Env, index: seq<int>)
    requires Valid(step, p, n) && Ready(step, n, id, e, env, env')
    ensures Same(w, step, p, d, id, e, env, env', index)
    decreases d, e, 2
  {
    match e
    case Ref(x) => SimulatesRef(w, step, p, n, d, id, x, env, env', index);
    case Var(v) => SimulatesVar(w, step, p, n, d, id, v, env, env', index);
    case Operation(op, es) => SimulatesOperation(w, step, p, n, d, id, op, es, env, env', index);
    case Select(g, v, o) => SimulatesSelect(w, step, p, n, d, id, g, v, o, env, env', index);
    case Array(vars, body) => SimulatesArray(w, step, p, n, d, id, vars, body, env, env', index);
    case App(t, es) => SimulatesApp(w, step, p, n, d, id, t, es, env, env', index);
  }

  lemma SimulatesVar(w: World, step: Step, p: Program, n: nat, d: nat, id: Id, v: Variable, env: Env, env': Env, index: seq<int>)
    requires Valid(step, p, n) && Ready(step, n, id, Var(v), env, env')
    ensures Same(w, step, p, d, id, Var(v), env, env', index)
  {
  }

  lemma {:induction false} SimulatesOperation(w: World, step: Step, p: Program, n: nat, d: nat, id: Id, op: nat, es: seq<Expr>,
                                              env: Env, env': Env, index: seq<int>)
    requires Valid(step, p, n) && Ready(step, n, id, Operation(op, es), env, env')
    ensures Same(w, step, p, d, id, Operation(op, es), env, env', index)
    decreases d, Operation(op, es), 0
  {
    assert AllReady(step, n, id, es, env, env');
    NeedsSimulate(w, step, p, n, d, id, es, env, env', w.needs(op, index));
  }

  lemma ReadyParts(step: Step, n: nat, id: Id, g: Expr, v: Expr, o: Expr, env: Env, env': Env)
    requires Ready(step, n, id, Select(g, v, o), env, env')
    ensures Ready(step, n, id, g, env, env') && Ready(step, n, id, v, env, env') && Ready(step, n, id, o, env, env')
  {
  }

  lemma {:induction false} SimulatesSelect(w: World, step: Step, p: Program, n: nat, d: nat, id: Id, g: Expr, v: Expr, o: Expr,
                                           env: Env, env': Env, index: seq<int>)
    requires Valid(step, p, n) && Ready(step, n, id, Select(g, v, o), env, env')
    ensures Same(w, step, p, d, id, Select(g, v, o), env, env', index)
    decreases d, Select(g, v, o), 0
  {
    ReadyParts(step, n, id, g, v, o, env, env');
    Simulates(w, step, p, n, d, id, g, env, env', []);
    Simulates(w, step, p, n, d, id, v, env, env', index);
    Simulates(w, step, p, n, d, id, o, env, env', index);
  }

  predicate AllInRange(vars: seq<Variable>, index: seq<int>)
    requires |vars| <= |index|
  {
    forall k :: 0 <= k < |vars| ==> InRange(vars[k], index[k])
  }

  lemma ArrayElement(w: World, p: Program, d: nat, vars: seq<Variable>, body: Expr, env: Env, index: seq<int>)
    ensures Eval(w, p, d, Array(vars, body), env, index) ==
      if |vars| <= |index| && AllInRange(vars, index) then Eval(w, p, d, body, Bind(env, vars, index), index[|vars|..]) else None
  {
  }

  lemma {:induction false} SimulatesArray(w: World, step: Step, p: Program, n: nat, d: nat, id: Id, vars: seq<Variable>, body: Expr,
                                          env: Env, env': Env, index: seq<int>)
    requires Valid(step, p, n) && Ready(step, n, id, Array(vars, body), env, env')
    ensures Same(w, step, p, d, id, Array(vars, body), env, env', index)
    decreases d, Array(vars, body), 0
  {
    ArrayElement(w, p, d, vars, body, env, index);
    ArrayElement(w, Inflated(step, p), d, vars, Rewrite(step.i, step.added.Keys, body, Substitute(step, id)), env', index);
    if |vars| <= |index| && AllInRange(vars, index) {
      ReadyInside(step, n, id, vars, body, env, env', index);
      Simulates(w, step, p, n, d, id, body, Bind(env, vars, index), Bind(env', vars, index), index[|vars|..]);
    }
  }

  lemma {:induction false} SimulatesApp(w: World, step: Step, p: Program, n: nat, d: nat, id: Id, t: Expr, es: seq<Expr>,
                                        env: Env, env': Env, index: seq<int>)
    requires Valid(step, p, n) && Ready(step, n, id, App(t, es), env, env')
    ensures Same(w, step, p, d, id, App(t, es), env, env', index)
    decreases d, App(t, es), 0
  {
    assert AllReady(step, n, id, es, env, env');
    ArgsSimulate(w, step, p, n, d, id, es, env, env');
    var values := EvalArgs(w, p, d, es, env);
    if values.Some? {
      Simulates(w, step, p, n, d, id, t, env, env', values.value + index);
    }
  }

  lemma {:induction false} NeedsSimulate(w: World, step: Step, p: Program, n: nat, d: nat, id: Id, es: seq<Expr>, env: Env, env': Env,
                                         needs: seq<(nat, seq<int>)>)
    requires Valid(step, p, n) && AllReady(step, n, id, es, env, env')
    ensures EvalNeeds(w, Inflated(step, p), d, RewriteAll(step.i, step.added.Keys, es, Substitute(step, id)), env', needs) == EvalNeeds(w, p, d, es, env, needs)
    decreases d, es, |needs|
  {
    if needs != [] && needs[0].0 < |es| {
      Simulates(w, step, p, n, d, id, es[needs[0].0], env, env', needs[0].1);
      NeedsSimulate(w, step, p, n, d, id, es, env, env', needs[1..]);
    }
  }

  lemma {:induction false} ArgsSimulate(w: World, step: Step, p: Program, n: nat, d: nat, id: Id, es: seq<Expr>, env: Env, env': Env)
    requires Valid(step, p, n) && AllReady(step, n, id, es, env, env')
    ensures EvalArgs(w, Inflated(step, p), d, RewriteAll(step.i, step.added.Keys, es, Substitute(step, id)), env') == EvalArgs(w, p, d, es, env)
    decreases d, es
  {
    if es != [] {
      ArgsSimulate(w, step, p, n, d, id, es[..|es| - 1], env, env');
      Simulates(w, step, p, n, d, id, es[|es| - 1], env, env', []);
      var r := RewriteAll(step.i, step.added.Keys, es, Substitute(step, id));
      assert r[..|es| - 1] == RewriteAll(step.i, step.added.Keys, es[..|es| - 1], Substitute(step, id));
    }
  }

  lemma {:induction false} SimulatesRef(w: World, step: Step, p: Program, n: nat, d: nat, id: Id, x: Id, env: Env, env': Env, index: seq<int>)
    requires Valid(step, p, n) && Ready(step, n, id, Ref(x), env, env')
    ensures Same(w, step, p, d, id, Ref(x), env, env', index)
    decreases d, Ref(x), 1
  {
    if x in step.added {
      Applied(w, Inflated(step, p), d, x, Substitute(step, id), env', index);
      InflatedElement(w, step, p, n, d, x, env, env', index);
    } else if d > 0 && x in p {
      Simulates(w, step, p, n, d - 1, x, p[x], env, env', index);
      if x != step.source {
        RewriteIdle(step, p[x]);
      }
    }
  }

  lemma Applied(w: World, p: Program, d: nat, x: Id, u: Variable, env: Env, index: seq<int>)
    requires u in env
    ensures Eval(w, p, d, App(Ref(x), [Var(u)]), env, index) == Eval(w, p, d, Ref(x), env, [env[u]] + index)
  {
    var es := [Var(u)];
    assert es[..|es| - 1] == [];
    assert EvalArgs(w, p, d, es[..|es| - 1], env) == Some([]);
    assert Eval(w, p, d, es[|es| - 1], env, []) == Some(env[u]);
    assert [] + [env[u]] == [env[u]];
    assert EvalArgs(w, p, d, es, env) == Some([env[u]]);
  }

  /** An inflated name has a row for each value of the variable, and no other. */
  lemma NoOtherRows(w: World, step: Step, p: Program, n: nat, d: nat, x: Id, env: Env, k: int, index: seq<int>)
    requires Valid(step, p, n) && x in step.added && !(0 <= k && (step.i.range >= 0 ==> k < step.i.range))
    ensures Eval(w, Inflated(step, p), d, Ref(x), env, [k] + index) == None
  {
    if d > 0 && x in p {
      var vars := [step.added[x]];
      assert Inflated(step, p)[x] == Array(vars, Rewrite(step.i, step.added.Keys, p[x], step.added[x]));
      assert !InRange(vars[0], ([k] + index)[0]);
    }
  }

  /** Row k of an inflated name is what the name was where the variable was k. */
  lemma {:induction false} InflatedElement(w: World, step: Step, p: Program, n: nat, d: nat, x: Id, env: Env, env': Env, index: seq<int>)
    requires Valid(step, p, n) && x in step.added && Agree(step, n, env, env')
    requires step.i in env && InRange(step.i, env[step.i])
    ensures Eval(w, Inflated(step, p), d, Ref(x), env', [env[step.i]] + index) == Eval(w, p, d, Ref(x), env, index)
    decreases d, Ref(x), 0
  {
    if d > 0 && x in p {
      var v, k := step.added[x], env[step.i];
      var vars := [v];
      var inner := Bind(env', vars, [k] + index);
      assert vars[..|vars| - 1] == [] && ([k] + index)[|vars| - 1] == k;
      assert Bind(env', vars[..|vars| - 1], [k] + index) == env';
      assert inner == env'[v := k];
      assert ([k] + index)[1..] == index;
      assert Linked(step, x, env, inner);
      Simulates(w, step, p, n, d - 1, x, p[x], env, inner, index);
      assert Eval(w, Inflated(step, p), d, Ref(x), env', [k] + index)
          == Eval(w, Inflated(step, p), d - 1, Array([v], Rewrite(step.i, step.added.Keys, p[x], v)), env', [k] + index);
    }
  }

  /** Names that are not inflated keep their elements, whatever the environments. */
  lemma InflationPreservesMeaning(w: World, step: Step, p: Program, n: nat, d: nat, id: Id, env: Env, env': Env, index: seq<int>)
    requires Valid(step, p, n) && id !in step.added && Agree(step, n, env, env')
    ensures Eval(w, Inflated(step, p), d, Ref(id), env', index) == Eval(w, p, d, Ref(id), env, index)
  {
    SimulatesRef(w, step, p, n, d, id, id, env, env', index);
  }

  // ---- What the other variables see of one inflation ----------------------------------------

  lemma {:induction false} ScopedWhenUnrelated(i: Variable, lifted: set<Id>, e: Expr)
    requires i !in FreeVars(e) && Mentions(e) !! lifted
    ensures Scoped(i, lifted, e)
  {
    match e
    case Ref(_) =>
    case Var(_) =>
    case Operation(_, es) => AllScopedWhenUnrelated(i, lifted, es, Mentions(e), FreeVars(e));
    case Select(g, v, o) =>
      ScopedWhenUnrelated(i, lifted, g);
      ScopedWhenUnrelated(i, lifted, v);
      ScopedWhenUnrelated(i, lifted, o);
    case Array(vars, body) =>
      if i !in vars {
        ScopedWhenUnrelated(i, lifted, body);
      }
    case App(t, es) =>
      ScopedWhenUnrelated(i, lifted, t);
      AllScopedWhenUnrelated(i, lifted, es, Mentions(e), FreeVars(e));
  }

  lemma {:induction false} AllScopedWhenUnrelated(i: Variable, lifted: set<Id>, es: seq<Expr>, mentions: set<Id>, vars: set<Variable>)
    requires i !in vars && mentions !! lifted
    requires forall k :: 0 <= k < |es| ==> Mentions(es[k]) <= mentions && FreeVars(es[k]) <= vars
    ensures forall k :: 0 <= k < |es| ==> Scoped(i, lifted, es[k])
  {
    forall k | 0 <= k < |es| ensures Scoped(i, lifted, es[k]) {
      ScopedWhenUnrelated(i, lifted, es[k]);
    }
  }

  /** Rewriting keeps the names mentioned and the variables bound. */
  lemma {:induction false} RewriteNames(i: Variable, lifted: set<Id>, e: Expr, u: Variable)
    ensures Mentions(Rewrite(i, lifted, e, u)) == Mentions(e)
    ensures Binders(Rewrite(i, lifted, e, u)) == Binders(e)
  {
    match e
    case Ref(_) =>
    case Var(_) =>
    case Operation(op, es) =>
      forall k | 0 <= k < |es| { RewriteNames(i, lifted, es[k], u); }
      SameNames(es, RewriteAll(i, lifted, es, u));
    case Select(g, v, o) =>
      RewriteNames(i, lifted, g, u);
      RewriteNames(i, lifted, v, u);
      RewriteNames(i, lifted, o, u);
    case Array(vars, body) =>
      RewriteNames(i, lifted, body, u);
    case App(t, es) =>
      RewriteNames(i, lifted, t, u);
      forall k | 0 <= k < |es| { RewriteNames(i, lifted, es[k], u); }
      SameNames(es, RewriteAll(i, lifted, es, u));
  }

  lemma SameNames(es: seq<Expr>, rs: seq<Expr>)
    requires |es| == |rs|
    requires forall k :: 0 <= k < |es| ==> Mentions(rs[k]) == Mentions(es[k]) && Binders(rs[k]) == Binders(es[k])
    ensures Mentions(Operation(0, rs)) == Mentions(Operation(0, es))
    ensures Binders(Operation(0, rs)) == Binders(Operation(0, es))
  {
  }

  /** Rewriting replaces the variable. */
  lemma {:induction false} RewriteFree(i: Variable, lifted: set<Id>, e: Expr, u: Variable)
    ensures FreeVars(Rewrite(i, lifted, e, u)) <= FreeVars(e) - {i} + {u}
  {
    match e
    case Ref(_) =>
    case Var(_) =>
    case Operation(op, es) =>
      forall k | 0 <= k < |es| { RewriteFree(i, lifted, es[k], u); }
      FreeInAll(es, RewriteAll(i, lifted, es, u), i, u);
    case Select(g, v, o) =>
      RewriteFree(i, lifted, g, u);
      RewriteFree(i, lifted, v, u);
      RewriteFree(i, lifted, o, u);
    case Array(vars, body) =>
      RewriteFree(i, lifted, body, u);
    case App(t, es) =>
      RewriteFree(i, lifted, t, u);
      forall k | 0 <= k < |es| { RewriteFree(i, lifted, es[k], u); }
      FreeInAll(es, RewriteAll(i, lifted, es, u), i, u);
  }

  lemma FreeInAll(es: seq<Expr>, rs: seq<Expr>, i: Variable, u: Variable)
    requires |es| == |rs|
    requires forall k :: 0 <= k < |es| ==> FreeVars(rs[k]) <= FreeVars(es[k]) - {i} + {u}
    ensures FreeVars(Operation(0, rs)) <= FreeVars(Operation(0, es)) - {i} + {u}
  {
    forall x | x in FreeVars(Operation(0, rs)) ensures x in FreeVars(Operation(0, es)) - {i} + {u} {
      var k :| 0 <= k < |rs| && x in FreeVars(rs[k]);
      assert x in FreeVars(es[k]) - {i} + {u};
    }
  }

  /** Where the variable is in scope only inside its array, it is not free, before or after. */
  lemma {:induction false} ScopedIsNotFree(i: Variable, lifted: set<Id>, e: Expr)
    requires Scoped(i, lifted, e)
    ensures i !in FreeVars(e) && i !in FreeVars(Rewrite(i, lifted, e, i))
  {
    match e
    case Ref(_) =>
    case Var(_) =>
    case Operation(op, es) =>
      forall k | 0 <= k < |es| { ScopedIsNotFree(i, lifted, es[k]); }
    case Select(g, v, o) =>
      ScopedIsNotFree(i, lifted, g);
      ScopedIsNotFree(i, lifted, v);
      ScopedIsNotFree(i, lifted, o);
    case Array(vars, body) =>
      if i !in vars {
        ScopedIsNotFree(i, lifted, body);
      }
    case App(t, es) =>
      ScopedIsNotFree(i, lifted, t);
      forall k | 0 <= k < |es| { ScopedIsNotFree(i, lifted, es[k]); }
  }

  /** Rewriting for one variable keeps the scoping of another. */
  lemma {:induction false} RewriteScoped(i: Variable, lifted: set<Id>, e: Expr, u: Variable, j: Variable, others: set<Id>)
    requires Scoped(j, others, e) && j != u
    ensures Scoped(j, others, Rewrite(i, lifted, e, u))
  {
    match e
    case Ref(_) =>
    case Var(_) =>
    case Operation(op, es) =>
      forall k | 0 <= k < |es| { RewriteScoped(i, lifted, es[k], u, j, others); }
    case Select(g, v, o) =>
      RewriteScoped(i, lifted, g, u, j, others);
      RewriteScoped(i, lifted, v, u, j, others);
      RewriteScoped(i, lifted, o, u, j, others);
    case Array(vars, body) =>
      if j !in vars {
        RewriteScoped(i, lifted, body, u, j, others);
      }
    case App(t, es) =>
      RewriteScoped(i, lifted, t, u, j, others);
      forall k | 0 <= k < |es| { RewriteScoped(i, lifted, es[k], u, j, others); }
  }

  /** Rewriting uses no variable but the given one. */
  lemma {:induction false} RewriteBelow(i: Variable, lifted: set<Id>, e: Expr, u: Variable, n: nat)
    requires Below(e, n) && u.name < n
    ensures Below(Rewrite(i, lifted, e, u), n)
  {
    match e
    case Ref(_) =>
    case Var(_) =>
    case Operation(op, es) =>
      forall k | 0 <= k < |es| { RewriteBelow(i, lifted, es[k], u, n); }
    case Select(g, v, o) =>
      RewriteBelow(i, lifted, g, u, n);
      RewriteBelow(i, lifted, v, u, n);
      RewriteBelow(i, lifted, o, u, n);
    case Array(vars, body) =>
      RewriteBelow(i, lifted, body, u, n);
    case App(t, es) =>
      RewriteBelow(i, lifted, t, u, n);
      forall k | 0 <= k < |es| { RewriteBelow(i, lifted, es[k], u, n); }
  }

  // ---- Closed definitions -------------------------------------------------------------------

  ghost predicate SameOn(vars: set<Variable>, env: Env, env': Env) {
    forall u :: u in vars ==> (u in env <==> u in env') && (u in env ==> env[u] == env'[u])
  }

  ghost predicate AllClosed(p: Program) {
    forall id :: id in p ==> FreeVars(p[id]) == {}
  }

  /** Once no definition has a free variable, it does not matter where a name is mentioned. */
  lemma {:induction false} ClosedNeedsNoEnv(w: World, p: Program, d: nat, e: Expr, env: Env, env': Env, index: seq<int>)
    requires AllClosed(p) && SameOn(FreeVars(e), env, env')
    ensures Eval(w, p, d, e, env, index) == Eval(w, p, d, e, env', index)
    decreases d, e
  {
    match e
    case Ref(x) =>
      if d > 0 && x in p {
        ClosedNeedsNoEnv(w, p, d - 1, p[x], env, env', index);
      }
    case Var(_) =>
    case Operation(op, es) => NeedsNeedNoEnv(w, p, d, es, env, env', w.needs(op, index));
    case Select(g, v, o) =>
      ClosedNeedsNoEnv(w, p, d, g, env, env', []);
      ClosedNeedsNoEnv(w, p, d, v, env, env', index);
      ClosedNeedsNoEnv(w, p, d, o, env, env', index);
    case Array(vars, body) =>
      if |vars| <= |index| {
        var inner, inner' := Bind(env, vars, index), Bind(env', vars, index);
        forall u | u in FreeVars(body)
          ensures (u in inner <==> u in inner') && (u in inner ==> inner[u] == inner'[u])
        {
          BindKeeps(env, env', vars, index, u);
          BindKeeps(env', env, vars, index, u);
        }
        ClosedNeedsNoEnv(w, p, d, body, inner, inner', index[|vars|..]);
      }
    case App(t, es) =>
      ArgsNeedNoEnv(w, p, d, es, env, env');
      var values := EvalArgs(w, p, d, es, env);
      if values.Some? {
        ClosedNeedsNoEnv(w, p, d, t, env, env', values.value + index);
      }
  }

  lemma {:induction false} NeedsNeedNoEnv(w: World, p: Program, d: nat, es: seq<Expr>, env: Env, env': Env, needs: seq<(nat, seq<int>)>)
    requires AllClosed(p) && forall k :: 0 <= k < |es| ==> SameOn(FreeVars(es[k]), env, env')
    ensures EvalNeeds(w, p, d, es, env, needs) == EvalNeeds(w, p, d, es, env', needs)
    decreases d, es, |needs|
  {
    if needs != [] && needs[0].0 < |es| {
      ClosedNeedsNoEnv(w, p, d, es[needs[0].0], env, env', needs[0].1);
      NeedsNeedNoEnv(w, p, d, es, env, env', needs[1..]);
    }
  }

  lemma {:induction false} ArgsNeedNoEnv(w: World, p: Program, d: nat, es: seq<Expr>, env: Env, env': Env)
    requires AllClosed(p) && forall k :: 0 <= k < |es| ==> SameOn(FreeVars(es[k]), env, env')
    ensures EvalArgs(w, p, d, es, env) == EvalArgs(w, p, d, es, env')
    decreases d, es
  {
    if es != [] {
      ArgsNeedNoEnv(w, p, d, es[..|es| - 1], env, env');
      ClosedNeedsNoEnv(w, p, d, es[|es| - 1], env, env', []);
    }
  }
}
