/** What pruning does to graphs whose nodes have bodies (branches, loops) that read names of
  the surrounding graph. The pruning follows node inputs only. For single-assignment graphs
  this module says exactly when the outputs keep their values all the same.
  */
module GraphCaptures {
  import opened Options
  import opened GraphPruning
  import opened GraphSurgery

  // ------------------------------------------------------------------ conditions

  predicate Drops(nodes: seq<Node>, wanted: set<Name>)
    requires nodes != []
  {
    Needed(nodes[1..], wanted) !! Names(nodes[0].outputs)
  }

  /** Real names whose value an output depends on, through node inputs or through bodies. */
  function Used(nodes: seq<Node>, wanted: set<Name>): (used: set<Name>)
    ensures OMITTED !in used
  {
    if nodes == [] then wanted - {OMITTED} else
    var used := Used(nodes[1..], wanted);
    if used !! Names(nodes[0].outputs) then used else used + (Names(nodes[0].Reads()) - {OMITTED})
  }

  /** A body that an output depends on finds after the pruning every name it finds before:
      `all` are the names defined so far in the whole graph, `left` those in the pruned one. */
  ghost predicate CapturesKept(nodes: seq<Node>, wanted: set<Name>, all: set<Name>, left: set<Name>)
    decreases |nodes|
  {
    nodes == [] ||
    var outputs := Names(nodes[0].outputs);
    && (Used(nodes[1..], wanted) !! outputs || Names(nodes[0].captured) * all <= left + {OMITTED})
    && CapturesKept(nodes[1..], wanted, all + outputs, if Drops(nodes, wanted) then left else left + outputs)
  }

  // ------------------------------------------------------------------ it suffices

  lemma {:induction false} StoreDefines<V>(sem: Semantics<V>, node: Node, args: seq<Option<V>>, env: Environment<V>,
                                           k: nat)
    requires k <= |node.outputs|
    ensures Store(sem, node, args, env, k).Keys == env.Keys + Names(node.outputs[k..])
    decreases |node.outputs| - k
  {
    if k < |node.outputs| {
      var v := sem.apply(node.kind, node.attributes, args, k);
      StoreDefines(sem, node, args, env[node.outputs[k] := v], k + 1);
      assert node.outputs[k..] == [node.outputs[k]] + node.outputs[k + 1..];
    }
  }

  lemma ExecuteDefines<V>(sem: Semantics<V>, node: Node, env: Environment<V>)
    ensures Execute(sem, node, env).Keys == env.Keys + Names(node.outputs)
  {
    StoreDefines(sem, node, Arguments(env, node.Reads()), env, 0);
    assert node.outputs[0..] == node.outputs;
  }

  /** Names outside the outputs keep their value, the omitted one never has any. */
  lemma ExecuteElsewhere<V>(sem: Semantics<V>, node: Node, env: Environment<V>, names: set<Name>)
    requires names * Names(node.outputs) <= {OMITTED}
    ensures Agree(Execute(sem, node, env), env, names)
  {
    StoreElsewhere(sem, node, Arguments(env, node.Reads()), env, 0, names - {OMITTED});
  }

  /** The pruned graph defines the needed names that the whole graph defines, and agrees
      with it on the used names it defines. */
  ghost predicate Keeps<V>(nodes: seq<Node>, wanted: set<Name>, x: Environment<V>, y: Environment<V>) {
    && y.Keys <= x.Keys
    && Needed(nodes, wanted) * x.Keys <= y.Keys
    && Agree(x, y, Used(nodes, wanted) * y.Keys)
  }

  /** A node an output depends on reads the same values in both graphs. */
  lemma UsedReads<V>(nodes: seq<Node>, wanted: set<Name>, x: Environment<V>, y: Environment<V>)
    requires nodes != [] && !Drops(nodes, wanted) && !(Used(nodes[1..], wanted) !! Names(nodes[0].outputs))
    requires Keeps(nodes, wanted, x, y) && CapturesKept(nodes, wanted, x.Keys, y.Keys)
    ensures Arguments(x, nodes[0].Reads()) == Arguments(y, nodes[0].Reads())
  {
    var node := nodes[0];
    forall name | name in Names(node.inputs) + Names(node.captured) ensures Lookup(x, name) == Lookup(y, name) {
      assert name in node.Reads();
      if name != OMITTED && name in x {
        assert name in Used(nodes, wanted);
        assert name in node.captured ==> name in Names(node.captured) * x.Keys;
        assert name in node.inputs ==> name in Needed(nodes, wanted);
        assert name in y.Keys;
      }
    }
    SameArguments(node, x, y);
  }

  lemma {:induction false} KeptCapturesSuffice<V>(sem: Semantics<V>, nodes: seq<Node>, wanted: set<Name>,
                                                  x: Environment<V>, y: Environment<V>)
    requires SingleAssignment(nodes, x.Keys) && CapturesKept(nodes, wanted, x.Keys, y.Keys)
             && Keeps(nodes, wanted, x, y)
    ensures Agree(Run(sem, nodes, x), Run(sem, Kept(nodes, wanted), y), wanted)
    decreases |nodes|
  {
    if nodes != [] {
      var node, rest := nodes[0], nodes[1..];
      var x' := Execute(sem, node, x);
      var y' := if Drops(nodes, wanted) then y else Execute(sem, node, y);
      ExecuteDefines(sem, node, x);
      ExecuteDefines(sem, node, y);
      ExecuteElsewhere(sem, node, x, x.Keys);
      ExecuteElsewhere(sem, node, y, x.Keys);
      RunKept(sem, nodes, wanted, y);
      if !Drops(nodes, wanted) && !(Used(rest, wanted) !! Names(node.outputs)) {
        UsedReads(nodes, wanted, x, y);
        BothDefine(sem, node, x, y);
      }
      KeepsOn(nodes, wanted, x, y, x', y');
      KeptCapturesSuffice(sem, rest, wanted, x', y');
    }
  }

  /** One node further. */
  lemma KeepsOn<V>(nodes: seq<Node>, wanted: set<Name>, x: Environment<V>, y: Environment<V>,
                   x': Environment<V>, y': Environment<V>)
    requires nodes != [] && Keeps(nodes, wanted, x, y) && Names(nodes[0].outputs) * x.Keys <= {OMITTED}
    requires x'.Keys == x.Keys + Names(nodes[0].outputs) && Agree(x', x, x.Keys)
    requires if Drops(nodes, wanted) then y' == y
             else y'.Keys == y.Keys + Names(nodes[0].outputs) && Agree(y', y, x.Keys)
    requires !Drops(nodes, wanted) && !(Used(nodes[1..], wanted) !! Names(nodes[0].outputs)) ==>
               Agree(x', y', Names(nodes[0].outputs))
    ensures Keeps(nodes[1..], wanted, x', y')
  {
  }

  lemma RunKept<V>(sem: Semantics<V>, nodes: seq<Node>, wanted: set<Name>, y: Environment<V>)
    requires nodes != []
    ensures Run(sem, Kept(nodes, wanted), y) ==
            Run(sem, Kept(nodes[1..], wanted), if Drops(nodes, wanted) then y else Execute(sem, nodes[0], y))
  {
    if Drops(nodes, wanted) {
      assert Kept(nodes, wanted) == Kept(nodes[1..], wanted);
    } else {
      assert Kept(nodes, wanted)[1..] == Kept(nodes[1..], wanted);
    }
  }

  lemma BothDefine<V>(sem: Semantics<V>, node: Node, x: Environment<V>, y: Environment<V>)
    requires Arguments(x, node.Reads()) == Arguments(y, node.Reads())
    ensures Agree(Execute(sem, node, x), Execute(sem, node, y), Names(node.outputs))
  {
    StoreSame(sem, node, Arguments(x, node.Reads()), x, y, 0);
    assert node.outputs[0..] == node.outputs;
  }

  lemma {:induction false} StoreSame<V>(sem: Semantics<V>, node: Node, args: seq<Option<V>>, x: Environment<V>,
                                        y: Environment<V>, k: nat)
    requires k <= |node.outputs|
    ensures Agree(Store(sem, node, args, x, k), Store(sem, node, args, y, k), Names(node.outputs[k..]))
    decreases |node.outputs| - k
  {
    if k < |node.outputs| {
      var name, v := node.outputs[k], sem.apply(node.kind, node.attributes, args, k);
      StoreSame(sem, node, args, x[name := v], y[name := v], k + 1);
      StoreAgrees(sem, node, args, x[name := v], y[name := v], k + 1, {name});
      assert node.outputs[k..] == [name] + node.outputs[k + 1..];
    }
  }

  // ----------------------------------------------------------------- it is needed

  /** Values that record how they were computed. */
  datatype Term = Given(name: Name) | Computed(kind: string, attributes: int, args: seq<Option<Term>>, k: nat)

  function Free(): Semantics<Term> {
    Semantics((kind: string, attributes: int, args: seq<Option<Term>>, k: nat) => Computed(kind, attributes, args, k))
  }

  lemma {:induction false} StoreRecords(node: Node, args: seq<Option<Term>>, env: Environment<Term>, k: nat, name: Name)
    requires k <= |node.outputs| && name in node.outputs[k..]
    ensures var out := Store(Free(), node, args, env, k);
            name in out && out[name].Computed? && out[name].args == args
    decreases |node.outputs| - k
  {
    var v := Computed(node.kind, node.attributes, args, k);
    var next := env[node.outputs[k] := v];
    if name in node.outputs[k + 1..] {
      StoreRecords(node, args, next, k + 1, name);
    } else {
      assert name == node.outputs[k];
      var rest := node.outputs[k + 1..];
      LastStore(node, args, next, k + 1, name);
    }
  }

  lemma {:induction false} LastStore(node: Node, args: seq<Option<Term>>, env: Environment<Term>, k: nat, name: Name)
    requires k <= |node.outputs| && name !in node.outputs[k..] && name in env
    ensures var out := Store(Free(), node, args, env, k); name in out && out[name] == env[name]
    decreases |node.outputs| - k
  {
    if k < |node.outputs| {
      assert node.outputs[k] in node.outputs[k..];
      LastStore(node, args, env[node.outputs[k] := Computed(node.kind, node.attributes, args, k)], k + 1, name);
    }
  }

  /** Equal outputs mean equal arguments. */
  lemma OutputShowsArguments(node: Node, x: Environment<Term>, y: Environment<Term>, name: Name)
    requires name in node.outputs && name != OMITTED
    requires Lookup(Execute(Free(), node, x), name) == Lookup(Execute(Free(), node, y), name)
    ensures Arguments(x, node.Reads()) == Arguments(y, node.Reads())
  {
    assert node.outputs[0..] == node.outputs;
    StoreRecords(node, Arguments(x, node.Reads()), x, 0, name);
    StoreRecords(node, Arguments(y, node.Reads()), y, 0, name);
  }

  /** If the recorded outputs agree, the used values agreed before, and every body that an
      output depends on found what it finds in the whole graph. */
  lemma {:induction false} EqualOutputsExpose(nodes: seq<Node>, wanted: set<Name>, x: Environment<Term>,
                                              y: Environment<Term>)
    requires SingleAssignment(nodes, x.Keys) && y.Keys <= x.Keys
    requires Agree(Run(Free(), nodes, x), Run(Free(), Kept(nodes, wanted), y), wanted)
    ensures CapturesKept(nodes, wanted, x.Keys, y.Keys)
    ensures Agree(x, y, Used(nodes, wanted) * x.Keys)
    decreases |nodes|
  {
    if nodes != [] {
      var node, rest := nodes[0], nodes[1..];
      var used, outputs := Used(rest, wanted), Names(node.outputs);
      var x' := Execute(Free(), node, x);
      var y' := if Drops(nodes, wanted) then y else Execute(Free(), node, y);
      ExecuteDefines(Free(), node, x);
      ExecuteDefines(Free(), node, y);
      ExecuteElsewhere(Free(), node, x, x.Keys);
      ExecuteElsewhere(Free(), node, y, x.Keys);
      RunKept(Free(), nodes, wanted, y);
      EqualOutputsExpose(rest, wanted, x', y');
      if name :| name in used && name in outputs {
        assert Lookup(x', name) == Lookup(y', name) && name in x' && name !in outputs * x.Keys;
        OutputShowsArguments(node, x, y, name);
        SameArguments(node, x, y);
        CapturedInBoth(node, x, y);
      }
    }
  }

  lemma CapturedInBoth(node: Node, x: Environment<Term>, y: Environment<Term>)
    requires Agree(x, y, Names(node.captured))
    ensures Names(node.captured) * x.Keys <= y.Keys + {OMITTED}
  {
    forall name | name in Names(node.captured) * x.Keys && name != OMITTED ensures name in y.Keys {
      assert Lookup(x, name) == Lookup(y, name);
    }
  }

  // ------------------------------------------------------------------------ exactly

  /** Pruning keeps the value of every output, for every operator semantics and all tensors
      and inputs of the given names. */
  ghost predicate KeepsMeaning<V(!new)>(nodes: seq<Node>, outputs: seq<Name>, tensors: set<Name>, inputs: set<Name>) {
    forall sem: Semantics<V>, initializers: map<Name, V>, feeds: Environment<V> ::
      initializers.Keys == tensors && feeds.Keys == inputs ==>
        OutputValues(sem, Kept(nodes, Names(outputs)), Restrict(initializers, Needed(nodes, Names(outputs))), outputs,
          feeds) ==
        OutputValues(sem, nodes, initializers, outputs, feeds)
  }

  lemma CapturesKeptSuffice<V(!new)>(nodes: seq<Node>, outputs: seq<Name>, tensors: set<Name>, inputs: set<Name>)
    requires SingleAssignment(nodes, tensors + inputs)
    requires CapturesKept(nodes, Names(outputs), tensors + inputs, tensors * Needed(nodes, Names(outputs)) + inputs)
    ensures KeepsMeaning<V>(nodes, outputs, tensors, inputs)
  {
    var wanted := Names(outputs);
    var needed := Needed(nodes, wanted);
    forall sem: Semantics<V>, initializers: map<Name, V>, feeds: Environment<V> | initializers.Keys == tensors
      && feeds.Keys == inputs
      ensures OutputValues(sem, Kept(nodes, wanted), Restrict(initializers, needed), outputs, feeds) ==
              OutputValues(sem, nodes, initializers, outputs, feeds)
    {
      var x, y := initializers + feeds, Restrict(initializers, needed) + feeds;
      assert x.Keys == tensors + inputs && y.Keys == tensors * needed + inputs;
      KeptCapturesSuffice(sem, nodes, wanted, x, y);
      SameOutputs(Run(sem, nodes, x), Run(sem, Kept(nodes, wanted), y), outputs);
    }
  }

  lemma SameOutputs<V>(x: Environment<V>, y: Environment<V>, outputs: seq<Name>)
    ensures Arguments(x, outputs) == Arguments(y, outputs) <==> Agree(x, y, Names(outputs))
  {
    if Arguments(x, outputs) == Arguments(y, outputs) {
      forall name | name in Names(outputs) ensures Lookup(x, name) == Lookup(y, name) {
        var k :| 0 <= k < |outputs| && outputs[k] == name;
        assert Arguments(x, outputs)[k] == Arguments(y, outputs)[k];
      }
    }
    if Agree(x, y, Names(outputs)) {
      forall k | 0 <= k < |outputs| ensures Arguments(x, outputs)[k] == Arguments(y, outputs)[k] {
        assert outputs[k] in Names(outputs);
      }
    }
  }

  /** In a single-assignment graph pruning keeps the meaning exactly when no body that an
      output depends on loses a name it reads. */
  lemma MeaningIffCapturesKept(nodes: seq<Node>, outputs: seq<Name>, tensors: set<Name>, inputs: set<Name>)
    requires SingleAssignment(nodes, tensors + inputs)
    ensures KeepsMeaning<Term>(nodes, outputs, tensors, inputs) <==>
            CapturesKept(nodes, Names(outputs), tensors + inputs, tensors * Needed(nodes, Names(outputs)) + inputs)
  {
    var wanted := Names(outputs);
    var needed := Needed(nodes, wanted);
    if CapturesKept(nodes, wanted, tensors + inputs, tensors * needed + inputs) {
      CapturesKeptSuffice<Term>(nodes, outputs, tensors, inputs);
    }
    if KeepsMeaning<Term>(nodes, outputs, tensors, inputs) {
      var initializers := map name | name in tensors :: Given(name);
      var feeds := map name | name in inputs :: Given(name);
      var x, y := initializers + feeds, Restrict(initializers, needed) + feeds;
      assert x.Keys == tensors + inputs && y.Keys == tensors * needed + inputs;
      assert initializers.Keys == tensors && feeds.Keys == inputs;
      assert OutputValues(Free(), Kept(nodes, wanted), Restrict(initializers, needed), outputs, feeds) ==
             OutputValues(Free(), nodes, initializers, outputs, feeds);
      SameOutputs(Run(Free(), nodes, x), Run(Free(), Kept(nodes, wanted), y), outputs);
      EqualOutputsExpose(nodes, wanted, x, y);
    }
  }

  /** The same for the surgery: the restored model computes what the replaced graph computes
      exactly when no body that an output depends on loses a name it reads. */
  lemma RestoredMeaningIff<V>(nodes: seq<Node>, source: Graph<V>, outputs: seq<Name>, tensors: set<Name>,
                              inputs: set<Name>)
    requires Judge(nodes, source) == Restored
    requires SingleAssignment(ReplacedNodes(nodes, source), GivenAfter(tensors, source) + inputs)
    ensures var r, all := ReplacedNodes(nodes, source), GivenAfter(tensors, source);
            KeepsMeaning<Term>(r, outputs, all, inputs) <==>
            CapturesKept(r, Names(outputs), all + inputs, all * Needed(r, Names(outputs)) + inputs)
  {
    MeaningIffCapturesKept(ReplacedNodes(nodes, source), outputs, GivenAfter(tensors, source), inputs);
  }

  /** A tensor that only the body of a branch reads is dropped, and the output changes. */
  lemma BranchTensorDropped()
    ensures var nodes := [Node("If", 0, ["cond"], ["c"], ["y"])];
            && SingleAssignment(nodes, {"c", "cond"})
            && "c" !in Needed(nodes, {"y"})
            && !KeepsMeaning<Term>(nodes, ["y"], {"c"}, {"cond"})
  {
    var branch := Node("If", 0, ["cond"], ["c"], ["y"]);
    var nodes, outputs := [branch], ["y"];
    assert Names(outputs) == {"y"} by { assert outputs[0] == "y"; }
    assert nodes[1..] == [] && branch.outputs[0] == "y" && branch.captured[0] == "c";
    assert Names(branch.inputs) == {"cond"} by { assert branch.inputs[0] == "cond"; }
    assert Names(branch.outputs) == {"y"};
    assert Needed(nodes, {"y"}) == {"y", "cond"};
    assert "c" in Names(branch.captured) * ({"c"} + {"cond"});
    assert {"c"} + {"cond"} == {"c", "cond"};
    MeaningIffCapturesKept(nodes, outputs, {"c"}, {"cond"});
  }
}
