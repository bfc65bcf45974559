/** The graph rewrite that drops no-op `Cast` nodes before the fp16 conversion
    (scripts/provision/export_gender.py).

    A graph is a list of nodes in topological, single-assignment order. `Run` gives it a
    denotational meaning over uninterpreted operators that may fail; the rewrite is proved to
    keep that meaning, to be complete, and to be idempotent. */
module CastElision {
  import opened Wrappers

  type Name = string

  /** A node attribute: `i` is its integer payload (`to` for a `Cast`). */
  datatype Attribute = Attribute(name: string, i: int)

  datatype NodeSpec = NodeSpec(
    name: string, opType: string, attributes: seq<Attribute>, input: seq<Name>, output: seq<Name>)

  /** Element types by value name; a name that is absent has an unknown type. */
  type TypeTable = map<Name, int>

  // ---------------------------------------------------------------- the rewrite

  /** The target type of a cast: the first attribute called `to`. */
  function TargetType(attributes: seq<Attribute>): Option<int> {
    if attributes == [] then None
    else if attributes[0].name == "to" then Some(attributes[0].i)
    else TargetType(attributes[1..])
  }

  function Resolve(rewire: map<Name, Name>, x: Name): Name {
    if x in rewire then rewire[x] else x
  }

  /** The operator's arity: a `Cast` has one input and one output. */
  predicate CastArity(n: NodeSpec) {
    n.opType == "Cast" ==> |n.input| == 1 && |n.output| == 1
  }

  predicate Elidable(n: NodeSpec, rewire: map<Name, Name>, types: TypeTable, outputs: set<Name>)
    requires CastArity(n)
  {
    && n.opType == "Cast"
    && TargetType(n.attributes).Some?
    && Resolve(rewire, n.input[0]) in types
    && types[Resolve(rewire, n.input[0])] == TargetType(n.attributes).value
    && n.output[0] !in outputs
  }

  datatype Scan = Scan(kept: seq<NodeSpec>, rewire: map<Name, Name>, removed: seq<(string, int)>)

  function ScanNode(s: Scan, n: NodeSpec, types: TypeTable, outputs: set<Name>): Scan
    requires CastArity(n)
  {
    if Elidable(n, s.rewire, types, outputs) then
      Scan(s.kept,
           s.rewire[n.output[0] := Resolve(s.rewire, n.input[0])],
           s.removed + [(n.name, TargetType(n.attributes).value)])
    else
      s.(kept := s.kept + [n])
  }

  ghost predicate AllCastArity(nodes: seq<NodeSpec>) {
    forall n <- nodes :: CastArity(n)
  }

  /** The elision loop over a prefix of the node list. */
  ghost function ScanAll(nodes: seq<NodeSpec>, types: TypeTable, outputs: set<Name>): Scan
    requires AllCastArity(nodes)
  {
    if nodes == [] then Scan([], map[], [])
    else ScanNode(ScanAll(nodes[..|nodes| - 1], types, outputs), nodes[|nodes| - 1], types, outputs)
  }

  function RewireNames(names: seq<Name>, rewire: map<Name, Name>): seq<Name> {
    seq(|names|, i requires 0 <= i < |names| => Resolve(rewire, names[i]))
  }

  function RewireNode(n: NodeSpec, rewire: map<Name, Name>): NodeSpec {
    n.(input := RewireNames(n.input, rewire))
  }

  function RewireAll(nodes: seq<NodeSpec>, rewire: map<Name, Name>): seq<NodeSpec> {
    seq(|nodes|, i requires 0 <= i < |nodes| => RewireNode(nodes[i], rewire))
  }

  /** The node list after the pass: what was kept, with its inputs rewired. */
  ghost function Elided(nodes: seq<NodeSpec>, types: TypeTable, outputs: set<Name>): seq<NodeSpec>
    requires AllCastArity(nodes)
  {
    var s := ScanAll(nodes, types, outputs);
    RewireAll(s.kept, s.rewire)
  }

  // ---------------------------------------------------------------- well-formed graphs

  function OutputNames(n: NodeSpec): set<Name> {
    set x | x in n.output && x != ""
  }

  /** The names that can be read after `nodes`, given those defined before them. */
  function Scope(start: set<Name>, nodes: seq<NodeSpec>): set<Name> {
    if nodes == [] then start
    else Scope(start, nodes[..|nodes| - 1]) + OutputNames(nodes[|nodes| - 1])
  }

  ghost predicate NoDuplicates(names: seq<Name>) {
    forall i, j :: 0 <= i < j < |names| && names[i] == names[j] ==> names[i] == ""
  }

  /** A node may follow `scope`: it reads defined names (the empty name stands for an omitted
      optional input) and defines new ones, each once. */
  ghost predicate NodeFits(scope: set<Name>, n: NodeSpec) {
    && CastArity(n)
    && (n.opType == "Cast" ==> n.output[0] != "" && n.input[0] != "")
    && (forall x <- n.input :: x == "" || x in scope)
    && OutputNames(n) !! scope
    && NoDuplicates(n.output)
  }

  /** Topologically sorted and in single-assignment form. */
  ghost predicate WellFormed(start: set<Name>, nodes: seq<NodeSpec>) {
    && "" !in start
    && (nodes != [] ==>
          && WellFormed(start, nodes[..|nodes| - 1])
          && NodeFits(Scope(start, nodes[..|nodes| - 1]), nodes[|nodes| - 1]))
  }

  // ---------------------------------------------------------------- meaning

  /** Uninterpreted operators: `run` maps an operator, its attributes, its number of outputs and
      its (possibly omitted) inputs to the outputs, or fails. */
  datatype Semantics<!V> = Semantics(
    run: (string, seq<Attribute>, nat, seq<Option<V>>) -> Option<seq<V>>,
    elemType: V -> int)

  /** The only thing known about an operator: a cast to the value's own type returns the value. */
  ghost predicate CastToOwnTypeIsIdentity<V(!new)>(sem: Semantics<V>) {
    forall attributes: seq<Attribute>, v: V ::
      TargetType(attributes) == Some(sem.elemType(v)) ==>
        sem.run("Cast", attributes, 1, [Some(v)]) == Some([v])
  }

  function Bind<V>(env: map<Name, V>, names: seq<Name>, values: seq<V>): map<Name, V>
    requires |names| == |values|
  {
    if names == [] then env
    else
      var k := |names| - 1;
      var rest := Bind(env, names[..k], values[..k]);
      if names[k] == "" then rest else rest[names[k] := values[k]]
  }

  function Arguments<V>(env: map<Name, V>, names: seq<Name>): seq<Option<V>> {
    seq(|names|, i requires 0 <= i < |names| => if names[i] in env then Some(env[names[i]]) else None)
  }

  function RunNode<V>(sem: Semantics<V>, n: NodeSpec, env: map<Name, V>): Option<map<Name, V>> {
    match sem.run(n.opType, n.attributes, |n.output|, Arguments(env, n.input))
    case None => None
    case Some(values) => if |values| == |n.output| then Some(Bind(env, n.output, values)) else None
  }

  /** Every value the graph computes from `env`, or `None` when an operator fails. */
  function Run<V>(sem: Semantics<V>, nodes: seq<NodeSpec>, env: map<Name, V>): Option<map<Name, V>> {
    if nodes == [] then Some(env)
    else
      match Run(sem, nodes[..|nodes| - 1], env)
      case None => None
      case Some(e) => RunNode(sem, nodes[|nodes| - 1], e)
  }

  ghost predicate TypesRight<V>(sem: Semantics<V>, types: TypeTable, r: Option<map<Name, V>>) {
    r.Some? ==> forall x :: x in r.value && x in types ==> sem.elemType(r.value[x]) == types[x]
  }

  /** Whatever part of the graph runs, the table is right about the values computed so far. */
  ghost predicate TableHolds<V>(sem: Semantics<V>, types: TypeTable, nodes: seq<NodeSpec>, env: map<Name, V>) {
    forall k :: 0 <= k <= |nodes| ==> TypesRight(sem, types, Run(sem, nodes[..k], env))
  }

  // ---------------------------------------------------------------- invariant of the loop

  /** One lookup resolves a whole chain (no value of `rewire` is a key), and only names that a
      dropped cast defined are renamed: never a graph output, an input or an initializer. */
  ghost predicate RewireInvariant(start: set<Name>, scope: set<Name>, rewire: map<Name, Name>, outputs: set<Name>) {
    && rewire.Keys !! rewire.Values
    && rewire.Keys !! outputs
    && rewire.Keys !! start
    && rewire.Keys <= scope
    && rewire.Values <= scope
    && "" !in rewire
  }

  /** A kept node reads defined names, defines none that was renamed, and is not elidable. */
  ghost predicate KeptInvariant(scope: set<Name>, n: NodeSpec, rewire: map<Name, Name>, types: TypeTable, outputs: set<Name>) {
    && CastArity(n)
    && (forall x <- n.input :: x == "" || x in scope)
    && OutputNames(n) <= scope - rewire.Keys
    && !Elidable(n, rewire, types, outputs)
  }

  /** What every iteration of the loop keeps. */
  ghost predicate ScanInvariant(start: set<Name>, scope: set<Name>, s: Scan, types: TypeTable, outputs: set<Name>) {
    && RewireInvariant(start, scope, s.rewire, outputs)
    && (forall n <- s.kept :: KeptInvariant(scope, n, s.rewire, types, outputs))
    && Scope(start, RewireAll(s.kept, s.rewire)) == scope - s.rewire.Keys
    && WellFormed(start, RewireAll(s.kept, s.rewire))
    && |s.removed| == |s.rewire|
  }

  lemma ScopeFacts(start: set<Name>, nodes: seq<NodeSpec>)
    requires WellFormed(start, nodes)
    ensures "" !in Scope(start, nodes)
    ensures start <= Scope(start, nodes)
    ensures AllCastArity(nodes)
  {
    if nodes != [] {
      ScopeFacts(start, nodes[..|nodes| - 1]);
    }
  }

  lemma RewireAllAppend(kept: seq<NodeSpec>, n: NodeSpec, rewire: map<Name, Name>)
    ensures RewireAll(kept + [n], rewire)[..|kept|] == RewireAll(kept, rewire)
    ensures RewireAll(kept + [n], rewire)[|kept|] == RewireNode(n, rewire)
  {
  }

  /** A new key that no kept node reads changes nothing about the kept nodes. */
  lemma RewireFresh(kept: seq<NodeSpec>, rewire: map<Name, Name>, key: Name, src: Name)
    requires forall n <- kept :: key !in n.input
    ensures RewireAll(kept, rewire[key := src]) == RewireAll(kept, rewire)
  {
    forall i | 0 <= i < |kept|
      ensures RewireNode(kept[i], rewire[key := src]) == RewireNode(kept[i], rewire)
    {
      assert key !in kept[i].input;
      assert RewireNames(kept[i].input, rewire[key := src]) == RewireNames(kept[i].input, rewire);
    }
  }

  lemma {:induction false} LoopInvariant(start: set<Name>, nodes: seq<NodeSpec>, types: TypeTable, outputs: set<Name>)
    requires WellFormed(start, nodes)
    ensures AllCastArity(nodes)
    ensures ScanInvariant(start, Scope(start, nodes), ScanAll(nodes, types, outputs), types, outputs)
    ensures |ScanAll(nodes, types, outputs).kept| + |ScanAll(nodes, types, outputs).removed| == |nodes|
  {
    ScopeFacts(start, nodes);
    if nodes == [] {
      assert RewireAll([], map[]) == [];
    } else {
      var prefix, n := nodes[..|nodes| - 1], nodes[|nodes| - 1];
      LoopInvariant(start, prefix, types, outputs);
      ScopeFacts(start, prefix);
      var s := ScanAll(prefix, types, outputs);
      if Elidable(n, s.rewire, types, outputs) {
        ElideStep(start, Scope(start, prefix), n, s, types, outputs);
      } else {
        KeepStep(start, Scope(start, prefix), n, s, types, outputs);
      }
    }
  }

  lemma RenameOne(start: set<Name>, scope: set<Name>, rewire: map<Name, Name>, outputs: set<Name>, key: Name, x: Name)
    requires RewireInvariant(start, scope, rewire, outputs)
    requires start <= scope && x in scope && key !in scope && key !in outputs && key != ""
    ensures RewireInvariant(start, scope + {key}, rewire[key := Resolve(rewire, x)], outputs)
  {
    var after := rewire[key := Resolve(rewire, x)];
    assert after.Keys == rewire.Keys + {key};
    forall y <- after.Values
      ensures y in scope && y !in after.Keys
    {
      var k :| k in after && after[k] == y;
      if k != key {
        assert rewire[k] in rewire.Values;
      } else if x in rewire {
        assert rewire[x] in rewire.Values;
      }
    }
  }

  lemma StillKept(scope: set<Name>, n: NodeSpec, rewire: map<Name, Name>, types: TypeTable, outputs: set<Name>, key: Name, src: Name)
    requires KeptInvariant(scope, n, rewire, types, outputs)
    requires key !in scope && key != ""
    ensures key !in n.input
    ensures KeptInvariant(scope + {key}, n, rewire[key := src], types, outputs)
  {
    if n.opType == "Cast" {
      assert n.input[0] in n.input;
    }
  }

  lemma CastOutput(scope: set<Name>, n: NodeSpec)
    requires NodeFits(scope, n) && n.opType == "Cast"
    ensures OutputNames(n) == {n.output[0]} && n.output[0] !in scope && n.input[0] in scope
  {
    assert n.output == [n.output[0]];
    assert n.input[0] in n.input;
    assert n.output[0] in OutputNames(n);
  }

  lemma ElideStep(start: set<Name>, scope: set<Name>, n: NodeSpec, s: Scan, types: TypeTable, outputs: set<Name>)
    requires ScanInvariant(start, scope, s, types, outputs)
    requires "" !in scope && start <= scope && NodeFits(scope, n)
    requires Elidable(n, s.rewire, types, outputs)
    ensures ScanInvariant(start, scope + OutputNames(n), ScanNode(s, n, types, outputs), types, outputs)
  {
    CastOutput(scope, n);
    var key, src := n.output[0], Resolve(s.rewire, n.input[0]);
    RenameOne(start, scope, s.rewire, outputs, key, n.input[0]);
    forall m <- s.kept
      ensures key !in m.input && KeptInvariant(scope + {key}, m, s.rewire[key := src], types, outputs)
    {
      StillKept(scope, m, s.rewire, types, outputs, key, src);
    }
    RewireFresh(s.kept, s.rewire, key, src);
    assert (scope + {key}) - s.rewire[key := src].Keys == scope - s.rewire.Keys;
  }

  lemma KeepStep(start: set<Name>, scope: set<Name>, n: NodeSpec, s: Scan, types: TypeTable, outputs: set<Name>)
    requires ScanInvariant(start, scope, s, types, outputs)
    requires "" !in scope && NodeFits(scope, n)
    requires !Elidable(n, s.rewire, types, outputs)
    ensures ScanInvariant(start, scope + OutputNames(n), ScanNode(s, n, types, outputs), types, outputs)
  {
    RewireAllAppend(s.kept, n, s.rewire);
    var before, m := RewireAll(s.kept, s.rewire), RewireNode(n, s.rewire);
    var now := RewireAll(s.kept + [n], s.rewire);
    assert now[..|now| - 1] == before && now[|now| - 1] == m;
    RewiredNodeFits(scope, n, s.rewire);
    forall k <- s.kept + [n]
      ensures KeptInvariant(scope + OutputNames(n), k, s.rewire, types, outputs)
    {
      if k in s.kept {
        assert KeptInvariant(scope, k, s.rewire, types, outputs);
      }
    }
  }

  lemma RewiredNodeFits(scope: set<Name>, n: NodeSpec, rewire: map<Name, Name>)
    requires NodeFits(scope, n)
    requires rewire.Keys !! rewire.Values && rewire.Keys <= scope && rewire.Values <= scope
    requires "" !in rewire && "" !in scope
    ensures NodeFits(scope - rewire.Keys, RewireNode(n, rewire))
    ensures OutputNames(RewireNode(n, rewire)) == OutputNames(n)
  {
    var m := RewireNode(n, rewire);
    forall x <- m.input
      ensures x == "" || x in scope - rewire.Keys
    {
      var i :| 0 <= i < |m.input| && x == m.input[i];
      assert n.input[i] in n.input;
    }
    if n.opType == "Cast" {
      assert n.input[0] in n.input;
      assert m.input[0] in m.input;
    }
  }

  // ---------------------------------------------------------------- meaning is preserved

  /** The rewritten run `e'` computes what the original run `e` computes: a kept name has its own
      value, a renamed one has the value of the name it was renamed to. */
  ghost predicate Simulates<V>(rewire: map<Name, Name>, e: map<Name, V>, e': map<Name, V>) {
    && (forall x :: x in e ==> Resolve(rewire, x) in e' && e'[Resolve(rewire, x)] == e[x])
    && (forall x :: x in e' ==> x in e && x !in rewire)
  }

  ghost predicate SameRun<V>(rewire: map<Name, Name>, r: Option<map<Name, V>>, r': Option<map<Name, V>>) {
    && (r.None? <==> r'.None?)
    && (r.Some? ==> Simulates(rewire, r.value, r'.value))
  }

  lemma BindFacts<V>(env: map<Name, V>, names: seq<Name>, values: seq<V>)
    requires |names| == |values|
    ensures Bind(env, names, values).Keys == env.Keys + (set x | x in names && x != "")
    ensures forall x :: x in env && x !in names ==> Bind(env, names, values)[x] == env[x]
  {
    if names != [] {
      var k := |names| - 1;
      BindFacts(env, names[..k], values[..k]);
      assert names == names[..k] + [names[k]];
    }
  }

  lemma BindSimulates<V>(rewire: map<Name, Name>, e: map<Name, V>, e': map<Name, V>, names: seq<Name>, values: seq<V>)
    requires |names| == |values|
    requires Simulates(rewire, e, e')
    requires forall x <- names :: x == "" || (x !in rewire && x !in rewire.Values)
    ensures Simulates(rewire, Bind(e, names, values), Bind(e', names, values))
  {
    if names != [] {
      var k := |names| - 1;
      BindSimulates(rewire, e, e', names[..k], values[..k]);
      assert names[k] in names;
    }
  }

  lemma SameArguments<V>(rewire: map<Name, Name>, e: map<Name, V>, e': map<Name, V>, names: seq<Name>)
    requires Simulates(rewire, e, e')
    requires "" !in e && "" !in rewire
    requires forall x <- names :: x == "" || x in e
    ensures Arguments(e, names) == Arguments(e', RewireNames(names, rewire))
  {
    forall i | 0 <= i < |names|
      ensures Arguments(e, names)[i] == Arguments(e', RewireNames(names, rewire))[i]
    {
      assert names[i] in names;
    }
  }

  lemma KeepRuns<V>(sem: Semantics<V>, n: NodeSpec, rewire: map<Name, Name>, e: map<Name, V>, e': map<Name, V>)
    requires NodeFits(e.Keys, n) && "" !in e
    requires rewire.Keys <= e.Keys && rewire.Values <= e.Keys
    requires Simulates(rewire, e, e')
    ensures SameRun(rewire, RunNode(sem, n, e), RunNode(sem, RewireNode(n, rewire), e'))
  {
    SameArguments(rewire, e, e', n.input);
    match sem.run(n.opType, n.attributes, |n.output|, Arguments(e, n.input))
    case None =>
    case Some(values) =>
      if |values| == |n.output| {
        forall x <- n.output
          ensures x == "" || (x !in rewire && x !in rewire.Values)
        {
          assert x != "" ==> x in OutputNames(n);
        }
        BindSimulates(rewire, e, e', n.output, values);
      }
  }

  lemma ElideRuns<V(!new)>(sem: Semantics<V>, n: NodeSpec, s: Scan, types: TypeTable, outputs: set<Name>, e: map<Name, V>, e': map<Name, V>)
    requires CastToOwnTypeIsIdentity(sem)
    requires NodeFits(e.Keys, n) && "" !in e
    requires Elidable(n, s.rewire, types, outputs)
    requires s.rewire.Keys <= e.Keys && s.rewire.Values <= e.Keys && s.rewire.Keys !! s.rewire.Values
    requires Simulates(s.rewire, e, e')
    requires TypesRight(sem, types, Some(e))
    ensures RunNode(sem, n, e) == Some(e[n.output[0] := e[n.input[0]]])
    ensures Simulates(ScanNode(s, n, types, outputs).rewire, e[n.output[0] := e[n.input[0]]], e')
  {
    CastOutput(e.Keys, n);
    var key, x := n.output[0], n.input[0];
    var src := Resolve(s.rewire, x);
    assert src in e && src !in s.rewire by {
      if x in s.rewire { assert s.rewire[x] in s.rewire.Values; }
    }
    assert e[src] == e'[src] == e[x];
    var v := e[x];
    assert Arguments(e, n.input) == [Some(v)];
    assert n.output == [key];
    assert sem.run("Cast", n.attributes, 1, [Some(v)]) == Some([v]);
    assert Bind(e, [key], [v]) == e[key := v] by {
      assert [key][..0] == [] && [v][..0] == [];
    }
  }

  lemma RunKeys<V>(sem: Semantics<V>, nodes: seq<NodeSpec>, env: map<Name, V>)
    requires Run(sem, nodes, env).Some?
    ensures Run(sem, nodes, env).value.Keys == Scope(env.Keys, nodes)
  {
    if nodes != [] {
      var n := nodes[|nodes| - 1];
      RunKeys(sem, nodes[..|nodes| - 1], env);
      var e := Run(sem, nodes[..|nodes| - 1], env).value;
      var values := sem.run(n.opType, n.attributes, |n.output|, Arguments(e, n.input)).value;
      BindFacts(e, n.output, values);
    }
  }

  lemma ElidedAppend(start: set<Name>, prefix: seq<NodeSpec>, n: NodeSpec, types: TypeTable, outputs: set<Name>)
    requires AllCastArity(prefix) && NodeFits(Scope(start, prefix), n)
    requires ScanInvariant(start, Scope(start, prefix), ScanAll(prefix, types, outputs), types, outputs)
    requires "" !in Scope(start, prefix)
    ensures AllCastArity(prefix + [n])
    ensures ScanAll(prefix + [n], types, outputs) == ScanNode(ScanAll(prefix, types, outputs), n, types, outputs)
    ensures var s := ScanAll(prefix, types, outputs);
            Elided(prefix + [n], types, outputs) ==
              if Elidable(n, s.rewire, types, outputs) then Elided(prefix, types, outputs)
              else Elided(prefix, types, outputs) + [RewireNode(n, s.rewire)]
  {
    assert (prefix + [n])[..|prefix|] == prefix;
    var s := ScanAll(prefix, types, outputs);
    if Elidable(n, s.rewire, types, outputs) {
      CastOutput(Scope(start, prefix), n);
      forall m <- s.kept ensures n.output[0] !in m.input {
        assert KeptInvariant(Scope(start, prefix), m, s.rewire, types, outputs);
      }
      RewireFresh(s.kept, s.rewire, n.output[0], Resolve(s.rewire, n.input[0]));
    }
  }

  lemma RunAppend<V>(sem: Semantics<V>, prefix: seq<NodeSpec>, n: NodeSpec, env: map<Name, V>)
    ensures Run(sem, prefix + [n], env) ==
              if Run(sem, prefix, env).None? then None else RunNode(sem, n, Run(sem, prefix, env).value)
  {
    assert (prefix + [n])[..|prefix|] == prefix;
  }

  lemma TableHoldsBefore<V>(sem: Semantics<V>, types: TypeTable, nodes: seq<NodeSpec>, env: map<Name, V>)
    requires nodes != [] && TableHolds(sem, types, nodes, env)
    ensures TableHolds(sem, types, nodes[..|nodes| - 1], env)
    ensures TypesRight(sem, types, Run(sem, nodes[..|nodes| - 1], env))
  {
    var prefix := nodes[..|nodes| - 1];
    forall k | 0 <= k <= |prefix|
      ensures TypesRight(sem, types, Run(sem, prefix[..k], env))
    {
      assert prefix[..k] == nodes[..k];
    }
  }

  lemma SimulateNode<V(!new)>(sem: Semantics<V>, nodes: seq<NodeSpec>, types: TypeTable, outputs: set<Name>, env: map<Name, V>)
    requires nodes != [] && WellFormed(env.Keys, nodes) && AllCastArity(nodes)
    requires CastToOwnTypeIsIdentity(sem)
    requires TypesRight(sem, types, Run(sem, nodes[..|nodes| - 1], env))
    requires var prefix := nodes[..|nodes| - 1];
             SameRun(ScanAll(prefix, types, outputs).rewire,
                     Run(sem, prefix, env), Run(sem, Elided(prefix, types, outputs), env))
    ensures SameRun(ScanAll(nodes, types, outputs).rewire,
                    Run(sem, nodes, env), Run(sem, Elided(nodes, types, outputs), env))
  {
    var prefix, n := nodes[..|nodes| - 1], nodes[|nodes| - 1];
    assert nodes == prefix + [n];
    ScopeFacts(env.Keys, prefix);
    LoopInvariant(env.Keys, prefix, types, outputs);
    var s := ScanAll(prefix, types, outputs);
    ElidedAppend(env.Keys, prefix, n, types, outputs);
    if Run(sem, prefix, env).Some? {
      RunKeys(sem, prefix, env);
      var e, e' := Run(sem, prefix, env).value, Run(sem, Elided(prefix, types, outputs), env).value;
      if Elidable(n, s.rewire, types, outputs) {
        ElideRuns(sem, n, s, types, outputs, e, e');
      } else {
        RunAppend(sem, Elided(prefix, types, outputs), RewireNode(n, s.rewire), env);
        KeepRuns(sem, n, s.rewire, e, e');
      }
    } else {
      RunAppend(sem, Elided(prefix, types, outputs), RewireNode(n, s.rewire), env);
    }
  }

  /** The simulation: the rewritten prefix fails exactly when the original does, and otherwise
      computes the same values up to renaming. */
  lemma {:induction false} ElisionSimulates<V(!new)>(sem: Semantics<V>, nodes: seq<NodeSpec>, types: TypeTable, outputs: set<Name>, env: map<Name, V>)
    requires WellFormed(env.Keys, nodes)
    requires CastToOwnTypeIsIdentity(sem)
    requires TableHolds(sem, types, nodes, env)
    ensures AllCastArity(nodes)
    ensures SameRun(ScanAll(nodes, types, outputs).rewire,
                    Run(sem, nodes, env), Run(sem, Elided(nodes, types, outputs), env))
  {
    ScopeFacts(env.Keys, nodes);
    if nodes == [] {
      assert RewireAll([], map[]) == [];
    } else {
      TableHoldsBefore(sem, types, nodes, env);
      ElisionSimulates(sem, nodes[..|nodes| - 1], types, outputs, env);
      SimulateNode(sem, nodes, types, outputs, env);
    }
  }

  /** MAIN RESULT. For every well-formed graph, every sound (possibly partial) type table and
      every input: the rewritten graph fails exactly when the original fails, and otherwise
      every graph output has the same value. */
  lemma ElisionPreservesOutputs<V(!new)>(sem: Semantics<V>, nodes: seq<NodeSpec>, types: TypeTable, outputs: set<Name>, env: map<Name, V>)
    requires WellFormed(env.Keys, nodes)
    requires outputs <= Scope(env.Keys, nodes)
    requires CastToOwnTypeIsIdentity(sem)
    requires TableHolds(sem, types, nodes, env)
    ensures AllCastArity(nodes)
    ensures Run(sem, nodes, env).Some? <==> Run(sem, Elided(nodes, types, outputs), env).Some?
    ensures Run(sem, nodes, env).Some? ==>
              var e, e' := Run(sem, nodes, env).value, Run(sem, Elided(nodes, types, outputs), env).value;
              forall o <- outputs :: o in e && o in e' && e'[o] == e[o]
  {
    ElisionSimulates(sem, nodes, types, outputs, env);
    LoopInvariant(env.Keys, nodes, types, outputs);
    if Run(sem, nodes, env).Some? {
      RunKeys(sem, nodes, env);
    }
  }

  // ---------------------------------------------------------------- complete and idempotent

  /** The nodes whose output was not renamed, in their original order. */
  ghost function Survivors(nodes: seq<NodeSpec>, rewire: map<Name, Name>): seq<NodeSpec>
    requires AllCastArity(nodes)
  {
    if nodes == [] then []
    else
      var n := nodes[|nodes| - 1];
      assert n in nodes;
      Survivors(nodes[..|nodes| - 1], rewire)
      + if n.opType == "Cast" && n.output[0] in rewire then [] else [n]
  }

  lemma SurvivorsFresh(start: set<Name>, nodes: seq<NodeSpec>, rewire: map<Name, Name>, key: Name, src: Name)
    requires WellFormed(start, nodes) && AllCastArity(nodes)
    requires key !in Scope(start, nodes)
    ensures Survivors(nodes, rewire[key := src]) == Survivors(nodes, rewire)
  {
    if nodes != [] {
      var n := nodes[|nodes| - 1];
      SurvivorsFresh(start, nodes[..|nodes| - 1], rewire, key, src);
      if n.opType == "Cast" {
        assert n.output[0] in OutputNames(n);
      }
    }
  }

  /** Only the renamed casts go, and the rest keep their order. */
  lemma {:induction false} KeptInOrder(start: set<Name>, nodes: seq<NodeSpec>, types: TypeTable, outputs: set<Name>)
    requires WellFormed(start, nodes)
    ensures AllCastArity(nodes)
    ensures var s := ScanAll(nodes, types, outputs); s.kept == Survivors(nodes, s.rewire)
  {
    ScopeFacts(start, nodes);
    if nodes != [] {
      var prefix, n := nodes[..|nodes| - 1], nodes[|nodes| - 1];
      KeptInOrder(start, prefix, types, outputs);
      LoopInvariant(start, prefix, types, outputs);
      var s := ScanAll(prefix, types, outputs);
      if Elidable(n, s.rewire, types, outputs) {
        CastOutput(Scope(start, prefix), n);
        SurvivorsFresh(start, prefix, s.rewire, n.output[0], Resolve(s.rewire, n.input[0]));
      } else if n.opType == "Cast" {
        CastOutput(Scope(start, prefix), n);
      }
    }
  }

  /** The result is a well-formed graph that defines every name but the removed ones, and each
      remaining cast either really converts, is of unknown type, or defines a graph output. */
  lemma ElidedIsReduced(start: set<Name>, nodes: seq<NodeSpec>, types: TypeTable, outputs: set<Name>)
    requires WellFormed(start, nodes)
    ensures AllCastArity(nodes)
    ensures var s, after := ScanAll(nodes, types, outputs), Elided(nodes, types, outputs);
            && WellFormed(start, after)
            && Scope(start, after) == Scope(start, nodes) - s.rewire.Keys
            && s.rewire.Keys !! outputs
            && |after| + |s.removed| == |nodes| && |s.removed| == |s.rewire|
            && forall m <- after :: CastArity(m) && !Elidable(m, map[], types, outputs)
  {
    LoopInvariant(start, nodes, types, outputs);
    var s, after := ScanAll(nodes, types, outputs), Elided(nodes, types, outputs);
    forall m <- after
      ensures CastArity(m) && !Elidable(m, map[], types, outputs)
    {
      var i :| 0 <= i < |after| && m == after[i];
      assert s.kept[i] in s.kept;
      assert KeptInvariant(Scope(start, nodes), s.kept[i], s.rewire, types, outputs);
    }
  }

  /** The target type of a cast is that of its first attribute called `to`. */
  lemma {:induction false} TargetTypeExactlyWhen(attributes: seq<Attribute>, t: int)
    ensures TargetType(attributes) == Some(t) <==>
            exists i :: 0 <= i < |attributes| && attributes[i] == Attribute("to", t)
                        && forall j :: 0 <= j < i ==> attributes[j].name != "to"
  {
    if attributes != [] {
      var rest := attributes[1..];
      TargetTypeExactlyWhen(rest, t);
      if attributes[0].name == "to" {
        if TargetType(attributes) == Some(t) {
          assert attributes[0] == Attribute("to", t);
        }
      } else if TargetType(rest) == Some(t) {
        var i :| 0 <= i < |rest| && rest[i] == Attribute("to", t) && forall j :: 0 <= j < i ==> rest[j].name != "to";
        forall j | 0 <= j < i + 1
          ensures attributes[j].name != "to"
        {
          assert j > 0 ==> attributes[j] == rest[j - 1];
        }
        assert attributes[i + 1] == Attribute("to", t);
      } else {
        forall i | 0 <= i < |attributes| && attributes[i] == Attribute("to", t)
          ensures exists j :: 0 <= j < i && attributes[j].name == "to"
        {
          assert rest[i - 1] == Attribute("to", t);
          var j :| 0 <= j < i - 1 && rest[j].name == "to";
          assert attributes[j + 1].name == "to";
        }
      }
    }
  }

  /** MAIN RESULT. No cast is left that casts a value of known type to that very type, whatever the
      type is, unless it defines a graph output. */
  lemma NoOpCastsAreGone(start: set<Name>, nodes: seq<NodeSpec>, types: TypeTable, outputs: set<Name>)
    requires WellFormed(start, nodes)
    ensures AllCastArity(nodes)
    ensures forall m <- Elided(nodes, types, outputs) ::
              m.opType == "Cast" ==>
              && |m.input| == 1 && |m.output| == 1
              && (m.input[0] in types && TargetType(m.attributes) == Some(types[m.input[0]]) ==> m.output[0] in outputs)
  {
    ElidedIsReduced(start, nodes, types, outputs);
  }

  /** The names and target types of the renamed casts, in order. */
  ghost function Dropped(nodes: seq<NodeSpec>, rewire: map<Name, Name>): seq<(string, Option<int>)>
    requires AllCastArity(nodes)
  {
    if nodes == [] then []
    else
      var n := nodes[|nodes| - 1];
      assert n in nodes;
      Dropped(nodes[..|nodes| - 1], rewire)
      + if n.opType == "Cast" && n.output[0] in rewire then [(n.name, TargetType(n.attributes))] else []
  }

  function Reported(removed: seq<(string, int)>): seq<(string, Option<int>)> {
    seq(|removed|, i requires 0 <= i < |removed| => (removed[i].0, Some(removed[i].1)))
  }

  lemma DroppedFresh(start: set<Name>, nodes: seq<NodeSpec>, rewire: map<Name, Name>, key: Name, src: Name)
    requires WellFormed(start, nodes) && AllCastArity(nodes)
    requires key !in Scope(start, nodes)
    ensures Dropped(nodes, rewire[key := src]) == Dropped(nodes, rewire)
  {
    if nodes != [] {
      var n := nodes[|nodes| - 1];
      DroppedFresh(start, nodes[..|nodes| - 1], rewire, key, src);
      if n.opType == "Cast" {
        assert n.output[0] in OutputNames(n);
      }
    }
  }

  /** The report names each cast that went, with its target type, in order. */
  lemma {:induction false} RemovedInOrder(start: set<Name>, nodes: seq<NodeSpec>, types: TypeTable, outputs: set<Name>)
    requires WellFormed(start, nodes)
    ensures AllCastArity(nodes)
    ensures var s := ScanAll(nodes, types, outputs); Reported(s.removed) == Dropped(nodes, s.rewire)
  {
    ScopeFacts(start, nodes);
    if nodes != [] {
      var prefix, n := nodes[..|nodes| - 1], nodes[|nodes| - 1];
      RemovedInOrder(start, prefix, types, outputs);
      LoopInvariant(start, prefix, types, outputs);
      var s := ScanAll(prefix, types, outputs);
      if Elidable(n, s.rewire, types, outputs) {
        CastOutput(Scope(start, prefix), n);
        DroppedFresh(start, prefix, s.rewire, n.output[0], Resolve(s.rewire, n.input[0]));
        ReportedSnoc(s.removed, (n.name, TargetType(n.attributes).value));
      } else if n.opType == "Cast" {
        CastOutput(Scope(start, prefix), n);
      }
    }
  }

  lemma ReportedSnoc(removed: seq<(string, int)>, entry: (string, int))
    ensures Reported(removed + [entry]) == Reported(removed) + [(entry.0, Some(entry.1))]
  {
  }

  lemma NothingToElide(nodes: seq<NodeSpec>, types: TypeTable, outputs: set<Name>)
    requires forall n <- nodes :: CastArity(n) && !Elidable(n, map[], types, outputs)
    ensures ScanAll(nodes, types, outputs) == Scan(nodes, map[], [])
    ensures Elided(nodes, types, outputs) == nodes
  {
    NothingRemoved(nodes, types, outputs);
    EmptyRewire(nodes);
  }

  lemma {:induction false} NothingRemoved(nodes: seq<NodeSpec>, types: TypeTable, outputs: set<Name>)
    requires forall n <- nodes :: CastArity(n) && !Elidable(n, map[], types, outputs)
    ensures ScanAll(nodes, types, outputs) == Scan(nodes, map[], [])
  {
    if nodes != [] {
      NothingRemoved(nodes[..|nodes| - 1], types, outputs);
      assert nodes[|nodes| - 1] in nodes;
      assert nodes == nodes[..|nodes| - 1] + [nodes[|nodes| - 1]];
    }
  }

  lemma EmptyRewire(nodes: seq<NodeSpec>)
    ensures RewireAll(nodes, map[]) == nodes
  {
    forall i | 0 <= i < |nodes| ensures RewireNode(nodes[i], map[]) == nodes[i] {
      assert RewireNames(nodes[i].input, map[]) == nodes[i].input;
    }
  }

  /** A second pass with the same table removes nothing and changes nothing. */
  lemma SecondPassIsIdentity(start: set<Name>, nodes: seq<NodeSpec>, types: TypeTable, outputs: set<Name>)
    requires WellFormed(start, nodes)
    ensures AllCastArity(nodes) && AllCastArity(Elided(nodes, types, outputs))
    ensures Elided(Elided(nodes, types, outputs), types, outputs) == Elided(nodes, types, outputs)
    ensures ScanAll(Elided(nodes, types, outputs), types, outputs).removed == []
  {
    ElidedIsReduced(start, nodes, types, outputs);
    NothingToElide(Elided(nodes, types, outputs), types, outputs);
  }

  // ---------------------------------------------------------------- the pass on mutable nodes

  /** A node of the model being edited: the pass assigns its inputs in place. */
  class Node {
    const name: string
    const opType: string
    const attributes: seq<Attribute>
    const output: seq<Name>
    var input: seq<Name>

    constructor (spec: NodeSpec)
      ensures Spec() == spec
    {
      name, opType, attributes := spec.name, spec.opType, spec.attributes;
      input, output := spec.input, spec.output;
    }

    function Spec(): NodeSpec
      reads this
    {
      NodeSpec(name, opType, attributes, input, output)
    }
  }

  ghost predicate Distinct(nodes: seq<Node>) {
    forall i, j :: 0 <= i < j < |nodes| ==> nodes[i] != nodes[j]
  }

  ghost function SpecsOf(nodes: seq<Node>): seq<NodeSpec>
    reads nodes
  {
    seq(|nodes|, i requires 0 <= i < |nodes| reads nodes => nodes[i].Spec())
  }

  /** Every input that was renamed now reads the name it was renamed to. */
  method RewireInputs(nodes: seq<Node>, rewire: map<Name, Name>)
    requires Distinct(nodes)
    modifies nodes
    ensures SpecsOf(nodes) == RewireAll(old(SpecsOf(nodes)), rewire)
  {
    ghost var start := SpecsOf(nodes);
    for k := 0 to |nodes|
      invariant forall j :: 0 <= j < k ==> nodes[j].Spec() == RewireNode(start[j], rewire)
      invariant forall j :: k <= j < |nodes| ==> nodes[j].Spec() == start[j]
    {
      var node := nodes[k];
      label Outer:
      for i := 0 to |node.input|
        invariant node.Spec() == start[k].(input := node.input)
        invariant |node.input| == |start[k].input|
        invariant forall j :: 0 <= j < i ==> node.input[j] == Resolve(rewire, start[k].input[j])
        invariant forall j :: i <= j < |node.input| ==> node.input[j] == start[k].input[j]
        invariant forall j :: 0 <= j < |nodes| && j != k ==> nodes[j].input == old@Outer(nodes[j].input)
      {
        if node.input[i] in rewire {
          node.input := node.input[i := rewire[node.input[i]]];
        }
      }
      assert node.input == RewireNames(start[k].input, rewire);
    }
  }

  lemma ScanStep(specs: seq<NodeSpec>, k: nat, types: TypeTable, outputs: set<Name>)
    requires k < |specs| && AllCastArity(specs)
    ensures specs[k] in specs && CastArity(specs[k])
    ensures ScanAll(specs[..k + 1], types, outputs) == ScanNode(ScanAll(specs[..k], types, outputs), specs[k], types, outputs)
  {
    assert specs[..k + 1][..k] == specs[..k];
  }

  lemma NewAtEnd(nodes: seq<Node>, k: nat)
    requires k < |nodes| && Distinct(nodes)
    ensures nodes[k] !in nodes[..k] && nodes[..k + 1] == nodes[..k] + [nodes[k]]
  {
  }

  /** The elision loop: which nodes stay, and which names are renamed to which. */
  method ScanNodes(nodes: seq<Node>, types: TypeTable, outputs: set<Name>)
    returns (kept: seq<Node>, rewire: map<Name, Name>, removed: seq<(string, int)>)
    requires Distinct(nodes)
    requires AllCastArity(SpecsOf(nodes))
    ensures Scan(SpecsOf(kept), rewire, removed) == ScanAll(SpecsOf(nodes), types, outputs)
    ensures Distinct(kept) && forall i :: 0 <= i < |kept| ==> kept[i] in nodes
  {
    kept, rewire, removed := [], map[], [];
    ghost var specs := SpecsOf(nodes);
    for k := 0 to |nodes|
      invariant Distinct(kept)
      invariant forall i :: 0 <= i < |kept| ==> kept[i] in nodes[..k]
      invariant Scan(SpecsOf(kept), rewire, removed) == ScanAll(specs[..k], types, outputs)
    {
      var node := nodes[k];
      ScanStep(specs, k, types, outputs);
      NewAtEnd(nodes, k);
      if node.opType == "Cast" {
        var to := TargetType(node.attributes);
        var src := Resolve(rewire, node.input[0]);
        if to.Some? && src in types && types[src] == to.value && node.output[0] !in outputs {
          rewire := rewire[node.output[0] := src];
          removed := removed + [(node.name, to.value)];
          continue;
        }
      }
      assert SpecsOf(kept + [node]) == SpecsOf(kept) + [specs[k]];
      kept := kept + [node];
    }
    assert specs[..|nodes|] == specs;
  }

  class Model {
    const outputs: seq<Name>
    var nodes: seq<Node>
    var valueInfo: seq<Name>

    constructor (nodes: seq<Node>, outputs: seq<Name>, valueInfo: seq<Name>)
      ensures this.nodes == nodes && this.outputs == outputs && this.valueInfo == valueInfo
    {
      this.nodes, this.outputs, this.valueInfo := nodes, outputs, valueInfo;
    }

    ghost function Specs(): seq<NodeSpec>
      reads this, nodes
    {
      SpecsOf(nodes)
    }

    /** Drops the no-op casts, renames their readers in place and forgets the cached types. */
    method ElideIdentityCasts(types: TypeTable) returns (removed: seq<(string, int)>)
      requires Distinct(nodes)
      requires AllCastArity(Specs())
      modifies this, nodes
      ensures Specs() == Elided(old(Specs()), types, set o | o in outputs)
      ensures removed == ScanAll(old(Specs()), types, set o | o in outputs).removed
      ensures valueInfo == []
      ensures Distinct(nodes) && forall i :: 0 <= i < |nodes| ==> nodes[i] in old(nodes)
    {
      var kept, rewire;
      kept, rewire, removed := ScanNodes(nodes, types, set o | o in outputs);
      assert forall n <- kept :: n in nodes;
      RewireInputs(kept, rewire);
      nodes := kept;
      valueInfo := [];
    }
  }
}
