/** Dropping the nodes and initializers of a graph that no output needs, and what the result
  means.

  Operators are uninterpreted: a `Semantics` gives the value of each output from the
  operator and the values of what it reads. The empty name stands for an omitted optional
  input or output. Besides its inputs, a node may read names that the bodies of its branches
  or loops take from outside; the pruning does not look at those.
  */
module GraphPruning {
  import opened Options

  type Name = string
  const OMITTED: Name := ""

  datatype Node = Node(kind: string, attributes: int, inputs: seq<Name>, captured: seq<Name>, outputs: seq<Name>)
  {
    function Reads(): seq<Name> { inputs + captured }
  }
  datatype Graph<V> = Graph(nodes: seq<Node>, initializers: map<Name, V>, outputs: seq<Name>)

  // ------------------------------------------------------------------- meaning

  type Environment<V> = map<Name, V>

  /** Value of output number `k` of an operator. */
  datatype Semantics<!V> = Semantics(apply: (string, int, seq<Option<V>>, nat) -> V)

  function Lookup<V>(env: Environment<V>, name: Name): Option<V> {
    if name != OMITTED && name in env then Some(env[name]) else None
  }

  function Arguments<V>(env: Environment<V>, names: seq<Name>): (args: seq<Option<V>>)
    ensures |args| == |names|
    ensures forall k :: 0 <= k < |names| ==> args[k] == Lookup(env, names[k])
  {
    seq(|names|, k requires 0 <= k < |names| => Lookup(env, names[k]))
  }

  function Store<V>(sem: Semantics<V>, node: Node, args: seq<Option<V>>, env: Environment<V>, k: nat): Environment<V>
    requires k <= |node.outputs|
    decreases |node.outputs| - k
  {
    if k == |node.outputs| then env
    else Store(sem, node, args, env[node.outputs[k] := sem.apply(node.kind, node.attributes, args, k)], k + 1)
  }

  function Execute<V>(sem: Semantics<V>, node: Node, env: Environment<V>): Environment<V> {
    Store(sem, node, Arguments(env, node.Reads()), env, 0)
  }

  function Run<V>(sem: Semantics<V>, nodes: seq<Node>, env: Environment<V>): Environment<V> {
    if nodes == [] then env else Run(sem, nodes[1..], Execute(sem, nodes[0], env))
  }

  /** What a caller sees: the values at the graph outputs, for given inputs. */
  function OutputValues<V>(sem: Semantics<V>, nodes: seq<Node>, initializers: map<Name, V>, outputs: seq<Name>,
                           feeds: Environment<V>): seq<Option<V>> {
    Arguments(Run(sem, nodes, initializers + feeds), outputs)
  }

  // ------------------------------------------------------------------- pruning

  function Names(names: seq<Name>): set<Name> {
    set name | name in names
  }

  /** Names read by the nodes kept so far, walking backwards. */
  function Needed(nodes: seq<Node>, wanted: set<Name>): set<Name> {
    if nodes == [] then wanted else
    var needed := Needed(nodes[1..], wanted);
    if needed !! Names(nodes[0].outputs) then needed else needed + Names(nodes[0].inputs)
  }

  function Kept(nodes: seq<Node>, wanted: set<Name>): seq<Node> {
    if nodes == [] then [] else
    (if Needed(nodes[1..], wanted) !! Names(nodes[0].outputs) then [] else [nodes[0]]) + Kept(nodes[1..], wanted)
  }

  ghost predicate Agree<V>(x: Environment<V>, y: Environment<V>, names: set<Name>) {
    forall name :: name in names ==> Lookup(x, name) == Lookup(y, name)
  }

  lemma {:induction false} StoreAgrees<V>(sem: Semantics<V>, node: Node, args: seq<Option<V>>, x: Environment<V>,
                                          y: Environment<V>, k: nat, names: set<Name>)
    requires k <= |node.outputs| && Agree(x, y, names)
    ensures Agree(Store(sem, node, args, x, k), Store(sem, node, args, y, k), names)
    decreases |node.outputs| - k
  {
    if k < |node.outputs| {
      var v := sem.apply(node.kind, node.attributes, args, k);
      StoreAgrees(sem, node, args, x[node.outputs[k] := v], y[node.outputs[k] := v], k + 1, names);
    }
  }

  lemma {:induction false} StoreElsewhere<V>(sem: Semantics<V>, node: Node, args: seq<Option<V>>, x: Environment<V>,
                                             k: nat, names: set<Name>)
    requires k <= |node.outputs| && names !! Names(node.outputs)
    ensures Agree(Store(sem, node, args, x, k), x, names)
    decreases |node.outputs| - k
  {
    if k < |node.outputs| {
      var v := sem.apply(node.kind, node.attributes, args, k);
      assert node.outputs[k] in Names(node.outputs);
      StoreElsewhere(sem, node, args, x[node.outputs[k] := v], k + 1, names);
    }
  }

  /** Whatever the bodies of kept nodes take from outside, kept nodes also read as inputs. */
  predicate CapturesNeeded(nodes: seq<Node>, wanted: set<Name>) {
    nodes == [] ||
    (&& CapturesNeeded(nodes[1..], wanted)
     && (Needed(nodes[1..], wanted) !! Names(nodes[0].outputs) || Names(nodes[0].captured) <= Needed(nodes, wanted)))
  }

  /** In particular when there are no bodies. */
  lemma {:induction false} NothingCaptured(nodes: seq<Node>, wanted: set<Name>)
    requires forall k :: 0 <= k < |nodes| ==> nodes[k].captured == []
    ensures CapturesNeeded(nodes, wanted)
  {
    if nodes != [] { NothingCaptured(nodes[1..], wanted); }
  }

  lemma SameArguments<V>(node: Node, x: Environment<V>, y: Environment<V>)
    ensures Arguments(x, node.Reads()) == Arguments(y, node.Reads()) <==>
            Agree(x, y, Names(node.inputs)) && Agree(x, y, Names(node.captured))
  {
    var names := node.Reads();
    if Arguments(x, names) == Arguments(y, names) {
      forall name | name in Names(node.inputs) + Names(node.captured) ensures Lookup(x, name) == Lookup(y, name) {
        assert name in names;
        var k :| 0 <= k < |names| && names[k] == name;
        assert Arguments(x, names)[k] == Arguments(y, names)[k];
      }
    }
    if Agree(x, y, Names(node.inputs)) && Agree(x, y, Names(node.captured)) {
      forall k | 0 <= k < |names| ensures Arguments(x, names)[k] == Arguments(y, names)[k] {
        assert names[k] in Names(node.inputs) + Names(node.captured);
      }
    }
  }

  /** Environments that agree on the needed names give the same wanted values, one running
      all nodes and the other only the kept ones. */
  lemma {:induction false} KeptNodesSuffice<V>(sem: Semantics<V>, nodes: seq<Node>, wanted: set<Name>,
                                               x: Environment<V>, y: Environment<V>)
    requires CapturesNeeded(nodes, wanted) && Agree(x, y, Needed(nodes, wanted))
    ensures Agree(Run(sem, nodes, x), Run(sem, Kept(nodes, wanted), y), wanted)
  {
    if nodes != [] {
      var node, rest := nodes[0], nodes[1..];
      var needed := Needed(rest, wanted);
      if needed !! Names(node.outputs) {
        assert Kept(nodes, wanted) == Kept(rest, wanted);
        StoreElsewhere(sem, node, Arguments(x, node.Reads()), x, 0, needed);
        KeptNodesSuffice(sem, rest, wanted, Execute(sem, node, x), y);
      } else {
        assert Kept(nodes, wanted)[1..] == Kept(rest, wanted);
        SameArguments(node, x, y);
        StoreAgrees(sem, node, Arguments(x, node.Reads()), x, y, 0, needed);
        KeptNodesSuffice(sem, rest, wanted, Execute(sem, node, x), Execute(sem, node, y));
      }
    }
  }

  function Restrict<V>(m: map<Name, V>, names: set<Name>): map<Name, V> {
    map name | name in m && name in names :: m[name]
  }

  /** Dropping unneeded nodes and initializers preserves every output value, for every
      operator semantics and every input, on every graph in which bodies capture only what
      is needed anyway. For single-assignment graphs GraphCaptures has the exact condition. */
  lemma PruningPreservesMeaning<V>(sem: Semantics<V>, nodes: seq<Node>, initializers: map<Name, V>,
                                   outputs: seq<Name>, feeds: Environment<V>)
    requires CapturesNeeded(nodes, Names(outputs))
    ensures var wanted := Names(outputs);
            OutputValues(sem, Kept(nodes, wanted), Restrict(initializers, Needed(nodes, wanted)), outputs, feeds) ==
            OutputValues(sem, nodes, initializers, outputs, feeds)
  {
    var wanted := Names(outputs);
    var needed := Needed(nodes, wanted);
    var x, y := initializers + feeds, Restrict(initializers, needed) + feeds;
    assert Agree(x, y, needed);
    KeptNodesSuffice(sem, nodes, wanted, x, y);
    forall k | 0 <= k < |outputs|
      ensures Lookup(Run(sem, nodes, x), outputs[k]) == Lookup(Run(sem, Kept(nodes, wanted), y), outputs[k])
    {
      assert outputs[k] in wanted;
    }
  }

  /** Pruning a pruned graph changes nothing. */
  lemma {:induction false} PruningIsIdempotent(nodes: seq<Node>, wanted: set<Name>)
    ensures Needed(Kept(nodes, wanted), wanted) == Needed(nodes, wanted)
    ensures Kept(Kept(nodes, wanted), wanted) == Kept(nodes, wanted)
  {
    if nodes != [] {
      PruningIsIdempotent(nodes[1..], wanted);
      if Needed(nodes[1..], wanted) !! Names(nodes[0].outputs) {
        assert Kept(nodes, wanted) == Kept(nodes[1..], wanted);
      } else {
        assert Kept(nodes, wanted)[1..] == Kept(nodes[1..], wanted);
      }
    }
  }

  /** Every non-omitted input is a given name or an output of an earlier node. */
  ghost predicate WellFormed(nodes: seq<Node>, given: set<Name>)
    decreases |nodes|
  {
    nodes == [] ||
    (&& Names(nodes[0].inputs) - {OMITTED} <= given
     && WellFormed(nodes[1..], given + Names(nodes[0].outputs)))
  }

  /** Kept nodes read only what kept nodes, kept initializers or inputs define. */
  lemma {:induction false} KeptInputsDefined(nodes: seq<Node>, wanted: set<Name>, given: set<Name>, kept: set<Name>)
    requires WellFormed(nodes, given)
    requires given * Needed(nodes, wanted) <= kept
    ensures WellFormed(Kept(nodes, wanted), kept)
    decreases |nodes|
  {
    if nodes != [] {
      var node, rest := nodes[0], nodes[1..];
      if Needed(rest, wanted) !! Names(node.outputs) {
        assert Kept(nodes, wanted) == Kept(rest, wanted);
        KeptInputsDefined(rest, wanted, given + Names(node.outputs), kept);
      } else {
        assert Kept(nodes, wanted)[1..] == Kept(rest, wanted);
        KeptInputsDefined(rest, wanted, given + Names(node.outputs), kept + Names(node.outputs));
      }
    }
  }

  /** Every real name is defined once. */
  ghost predicate SingleAssignment(nodes: seq<Node>, given: set<Name>)
    decreases |nodes|
  {
    nodes == [] ||
    (&& Names(nodes[0].outputs) * given <= {OMITTED}
     && SingleAssignment(nodes[1..], given + Names(nodes[0].outputs)))
  }

  // --------------------------------------------------------- what is kept exactly

  /** Node `k` reaches an output: one of its outputs is wanted or read by a later node
      that reaches one. With `blank`, two omitted names count as a connection. */
  ghost predicate Reaches(nodes: seq<Node>, wanted: set<Name>, blank: bool, k: nat)
    requires k < |nodes|
    decreases |nodes| - k, 1
  {
    exists name :: name in nodes[k].outputs && (blank || name != OMITTED) && Read(nodes, wanted, blank, k, name)
  }

  ghost predicate Read(nodes: seq<Node>, wanted: set<Name>, blank: bool, k: nat, name: Name)
    requires k < |nodes|
    decreases |nodes| - k, 0
  {
    name in wanted || exists j :: k < j < |nodes| && name in nodes[j].inputs && Reaches(nodes, wanted, blank, j)
  }

  /** The decision the backward walk takes at node `k`. */
  predicate IsKept(nodes: seq<Node>, wanted: set<Name>, k: nat)
    requires k < |nodes|
  {
    !(Needed(nodes[k + 1..], wanted) !! Names(nodes[k].outputs))
  }

  function KeptFrom(nodes: seq<Node>, wanted: set<Name>, k: nat): seq<Node>
    requires k <= |nodes|
    decreases |nodes| - k
  {
    if k == |nodes| then [] else (if IsKept(nodes, wanted, k) then [nodes[k]] else []) + KeptFrom(nodes, wanted, k + 1)
  }

  /** `Kept` lists the nodes for which that decision is positive, in order. */
  lemma {:induction false} KeptIsFilter(nodes: seq<Node>, wanted: set<Name>, k: nat)
    requires k <= |nodes|
    ensures Kept(nodes[k..], wanted) == KeptFrom(nodes, wanted, k)
    decreases |nodes| - k
  {
    if k < |nodes| {
      assert nodes[k..][1..] == nodes[k + 1..];
      KeptIsFilter(nodes, wanted, k + 1);
    }
  }

  lemma {:induction false} NeededIsRead(nodes: seq<Node>, wanted: set<Name>, k: nat, name: Name)
    requires k <= |nodes|
    ensures name in Needed(nodes[k..], wanted) <==>
            name in wanted || exists j :: k <= j < |nodes| && name in nodes[j].inputs && Reaches(nodes, wanted, true, j)
    decreases |nodes| - k, 1
  {
    if k < |nodes| {
      assert nodes[k..][1..] == nodes[k + 1..];
      NeededIsRead(nodes, wanted, k + 1, name);
      KeptReaches(nodes, wanted, k);
    }
  }

  /** The walk keeps exactly the nodes connected to an output by names, the omitted name
      included. */
  lemma {:induction false} KeptReaches(nodes: seq<Node>, wanted: set<Name>, k: nat)
    requires k < |nodes|
    ensures IsKept(nodes, wanted, k) <==> Reaches(nodes, wanted, true, k)
    decreases |nodes| - k, 0
  {
    forall name: Name
      ensures name in Needed(nodes[k + 1..], wanted) <==> Read(nodes, wanted, true, k, name)
    {
      NeededIsRead(nodes, wanted, k + 1, name);
    }
  }

  lemma {:induction false} ReachesWithBlank(nodes: seq<Node>, wanted: set<Name>, k: nat)
    requires k < |nodes| && Reaches(nodes, wanted, false, k)
    ensures Reaches(nodes, wanted, true, k)
    decreases |nodes| - k
  {
    var name :| name in nodes[k].outputs && name != OMITTED && Read(nodes, wanted, false, k, name);
    if name !in wanted {
      var j :| k < j < |nodes| && name in nodes[j].inputs && Reaches(nodes, wanted, false, j);
      ReachesWithBlank(nodes, wanted, j);
    }
    assert Read(nodes, wanted, true, k, name);
  }

  /** A dead node omits an output and a later live one omits an input. */
  ghost predicate BlankLink(nodes: seq<Node>, wanted: set<Name>, i: nat, j: nat) {
    && i < j < |nodes|
    && OMITTED in nodes[i].outputs && OMITTED in nodes[j].inputs
    && !Reaches(nodes, wanted, false, i) && Reaches(nodes, wanted, false, j)
  }

  /** Every node that reaches an output through real names is kept, and nothing else is,
      exactly when no dead node with an omitted output precedes a live node with an omitted
      input. */
  lemma KeptExactlyLive(nodes: seq<Node>, wanted: set<Name>)
    requires OMITTED !in wanted
    ensures forall k :: 0 <= k < |nodes| && Reaches(nodes, wanted, false, k) ==> IsKept(nodes, wanted, k)
    ensures (forall k :: 0 <= k < |nodes| && IsKept(nodes, wanted, k) ==> Reaches(nodes, wanted, false, k)) <==>
            !exists i, j :: BlankLink(nodes, wanted, i, j)
  {
    forall k | 0 <= k < |nodes| && Reaches(nodes, wanted, false, k) ensures IsKept(nodes, wanted, k) {
      ReachesWithBlank(nodes, wanted, k);
      KeptReaches(nodes, wanted, k);
    }
    if i, j :| BlankLink(nodes, wanted, i, j) {
      ReachesWithBlank(nodes, wanted, j);
      assert Read(nodes, wanted, true, i, OMITTED);
      KeptReaches(nodes, wanted, i);
    } else {
      forall k | 0 <= k < |nodes| && IsKept(nodes, wanted, k) ensures Reaches(nodes, wanted, false, k) {
        KeptReaches(nodes, wanted, k);
        LiveWithoutBlankLinks(nodes, wanted, k);
      }
    }
  }

  lemma {:induction false} LiveWithoutBlankLinks(nodes: seq<Node>, wanted: set<Name>, k: nat)
    requires k < |nodes| && OMITTED !in wanted && Reaches(nodes, wanted, true, k)
    requires !exists i, j :: BlankLink(nodes, wanted, i, j)
    ensures Reaches(nodes, wanted, false, k)
    decreases |nodes| - k
  {
    var name :| name in nodes[k].outputs && Read(nodes, wanted, true, k, name);
    if name !in wanted {
      var j :| k < j < |nodes| && name in nodes[j].inputs && Reaches(nodes, wanted, true, j);
      LiveWithoutBlankLinks(nodes, wanted, j);
      if name == OMITTED {
        assert !BlankLink(nodes, wanted, k, j);
      } else {
        assert Read(nodes, wanted, false, k, name);
      }
    } else {
      assert Read(nodes, wanted, false, k, name);
    }
  }

  /** A graph in which a node with no path to the output survives the pruning. */
  lemma DeadNodeKept()
    ensures var nodes := [Node("Dropout", 0, ["x"], [], ["unused", OMITTED]),
                          Node("Clip", 0, ["x", OMITTED], [], ["y"])];
            && IsKept(nodes, {"y"}, 0)
            && !Reaches(nodes, {"y"}, false, 0)
  {
    var nodes := [Node("Dropout", 0, ["x"], [], ["unused", OMITTED]), Node("Clip", 0, ["x", OMITTED], [], ["y"])];
    assert nodes[1].outputs[0] == "y";
    assert Read(nodes, {"y"}, true, 1, "y");
    assert Reaches(nodes, {"y"}, true, 1);
    assert nodes[1].inputs[1] == OMITTED && nodes[0].outputs[1] == OMITTED;
    assert Read(nodes, {"y"}, true, 0, OMITTED);
    KeptReaches(nodes, {"y"}, 0);
    assert !Read(nodes, {"y"}, false, 0, "unused");
  }
}
