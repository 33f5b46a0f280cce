/** Putting float convolutions back into a quantized graph: replace the producer of each
  convolution output, then drop the nodes and initializers nothing reads any more.
  */
module GraphSurgery {
  import opened Options
  import opened GraphPruning

  // ----------------------------------------------------------- the whole surgery

  function Convolutions(nodes: seq<Node>): seq<Node> {
    if nodes == [] then [] else
    Convolutions(nodes[..|nodes| - 1]) + (if nodes[|nodes| - 1].kind == "Conv" then [nodes[|nodes| - 1]] else [])
  }

  /** Replacement by first output name; a later convolution overrides an earlier one. */
  function Replacements(convs: seq<Node>): map<Name, Node>
    requires forall k :: 0 <= k < |convs| ==> convs[k].outputs != []
  {
    if convs == [] then map[] else
    var last := convs[|convs| - 1];
    Replacements(convs[..|convs| - 1])[last.outputs[0] := last]
  }

  /** Those of `all` that are among `names`, with repetitions. */
  function Select(all: seq<Name>, names: set<Name>): (r: seq<Name>)
    ensures forall name :: name in r <==> name in all && name in names
  {
    if all == [] then [] else (if all[0] in names then [all[0]] else []) + Select(all[1..], names)
  }

  /** Each node produces at most one replaced name, and no two nodes produce the same one. */
  ghost predicate Unambiguous(nodes: seq<Node>, names: set<Name>) {
    && (forall k :: 0 <= k < |nodes| ==> |Select(nodes[k].outputs, names)| <= 1)
    && forall i, j :: 0 <= i < j < |nodes| ==> Names(nodes[i].outputs) * Names(nodes[j].outputs) * names == {}
  }

  function Produced(nodes: seq<Node>): set<Name> {
    set k, name | 0 <= k < |nodes| && name in nodes[k].outputs :: name
  }

  function ReplacedNode(node: Node, replacements: map<Name, Node>): Node {
    var matching := Select(node.outputs, replacements.Keys);
    if matching == [] then node else replacements[matching[0]]
  }

  /** The original nodes, each producer of a replaced name exchanged for its convolution. */
  function Replaced(nodes: seq<Node>, replacements: map<Name, Node>): (r: seq<Node>)
    ensures |r| == |nodes| && forall k :: 0 <= k < |nodes| ==> r[k] == ReplacedNode(nodes[k], replacements)
  {
    seq(|nodes|, k requires 0 <= k < |nodes| => ReplacedNode(nodes[k], replacements))
  }

  /** Names of the tensors the convolutions bring along: all inputs but the first. */
  function WeightNames(convs: seq<Node>): set<Name> {
    set k, i | 0 <= k < |convs| && 1 <= i < |convs[k].inputs| && convs[k].inputs[i] != OMITTED :: convs[k].inputs[i]
  }

  datatype Verdict = Restored | AmbiguousProducer | MissingProducer | ConvWithoutOutput | MissingSourceTensor

  /** Which way the surgery ends, decided on its inputs. */
  ghost function Judge<V>(nodes: seq<Node>, source: Graph<V>): Verdict {
    var convs := Convolutions(source.nodes);
    if exists k :: 0 <= k < |convs| && convs[k].outputs == [] then ConvWithoutOutput else
    var replacements := Replacements(convs);
    if !Unambiguous(nodes, replacements.Keys) then AmbiguousProducer
    else if !(replacements.Keys <= Produced(nodes)) then MissingProducer
    else if !(WeightNames(convs) <= source.initializers.Keys) then MissingSourceTensor
    else Restored
  }

  /** The replaced graph before pruning: the list of nodes and all initializers. */
  ghost function ReplacedNodes<V>(nodes: seq<Node>, source: Graph<V>): seq<Node>
    requires Judge(nodes, source) == Restored
  {
    Replaced(nodes, Replacements(Convolutions(source.nodes)))
  }

  function MergedTensors<V>(initializers: map<Name, V>, source: Graph<V>): map<Name, V> {
    initializers + Restrict(source.initializers, WeightNames(Convolutions(source.nodes)))
  }

  class Model<V> {
    var nodes: seq<Node>
    var initializers: map<Name, V>
    const outputs: seq<Name>

    constructor (nodes: seq<Node>, initializers: map<Name, V>, outputs: seq<Name>)
      ensures this.nodes == nodes && this.initializers == initializers && this.outputs == outputs
    {
      this.nodes, this.initializers, this.outputs := nodes, initializers, outputs;
    }
  }

  /** Exchange the producers; `None` when some name has two producers or one node produces
      two names. */
  method ExchangeProducers(nodes: seq<Node>, replacements: map<Name, Node>) returns (r: Option<(seq<Node>, set<Name>)>)
    ensures r.Some? <==> Unambiguous(nodes, replacements.Keys)
    ensures r.Some? ==> r.value == (Replaced(nodes, replacements), replacements.Keys * Produced(nodes))
  {
    hide Unambiguous;
    hide Produced;
    hide Select;
    var changed: seq<Node> := [];
    var replaced: set<Name> := {};
    var names := replacements.Keys;
    NothingProduced(names);
    for k := 0 to |nodes|
      invariant changed == Replaced(nodes, replacements)[..k]
      invariant Unambiguous(nodes[..k], names)
      invariant replaced == names * Produced(nodes[..k])
    {
      var matching := Select(nodes[k].outputs, names);
      assert nodes[..k + 1][..k] == nodes[..k];
      ProducedSnoc(nodes, k);
      Selected(nodes[k].outputs, names);
      UnambiguousSnoc(nodes, k, names);
      if matching != [] {
        if |matching| != 1 || matching[0] in replaced {
          assert matching[0] in matching;
          if matching[0] in replaced {
            assert matching[0] in names * Produced(nodes[..k]) * Names(nodes[k].outputs);
          }
          assert !Unambiguous(nodes[..k + 1], names);
          UnambiguousPrefix(nodes, k + 1, names);
          return None;
        }
        changed := changed + [replacements[matching[0]]];
        replaced := replaced + {matching[0]};
      } else {
        changed := changed + [nodes[k]];
      }
    }
    assert nodes[..|nodes|] == nodes;
    assert Replaced(nodes, replacements)[..|nodes|] == Replaced(nodes, replacements);
    r := Some((changed, replaced));
  }

  lemma NothingProduced(names: set<Name>)
    ensures Produced([]) == {} && Unambiguous([], names)
  {
  }

  lemma Selected(all: seq<Name>, names: set<Name>)
    ensures var r := Select(all, names);
            && (r == [] ==> names * Names(all) == {})
            && (|r| == 1 ==> names * Names(all) == {r[0]})
  {
    var r := Select(all, names);
    assert forall name :: name in r <==> name in names * Names(all);
    if |r| == 1 { assert r == [r[0]]; }
  }

  lemma UnambiguousPrefix(nodes: seq<Node>, k: nat, names: set<Name>)
    requires k <= |nodes|
    ensures Unambiguous(nodes, names) ==> Unambiguous(nodes[..k], names)
  {
  }

  lemma ProducedSnoc(nodes: seq<Node>, k: nat)
    requires k < |nodes|
    ensures Produced(nodes[..k + 1]) == Produced(nodes[..k]) + Names(nodes[k].outputs)
  {
    forall name ensures name in Produced(nodes[..k + 1]) <==> name in Produced(nodes[..k]) + Names(nodes[k].outputs) {
      if name in Produced(nodes[..k]) {
        var i :| 0 <= i < k && name in nodes[..k][i].outputs;
        assert name in nodes[..k + 1][i].outputs;
      }
      if name in Names(nodes[k].outputs) {
        assert name in nodes[..k + 1][k].outputs;
      }
      if name in Produced(nodes[..k + 1]) {
        var i :| 0 <= i < k + 1 && name in nodes[..k + 1][i].outputs;
        assert i < k ==> name in nodes[..k][i].outputs;
      }
    }
  }

  lemma UnambiguousSnoc(nodes: seq<Node>, k: nat, names: set<Name>)
    requires k < |nodes| && Unambiguous(nodes[..k], names)
    ensures Unambiguous(nodes[..k + 1], names) <==>
            |Select(nodes[k].outputs, names)| <= 1 && names * Produced(nodes[..k]) * Names(nodes[k].outputs) == {}
  {
    var all := nodes[..k + 1];
    assert all[k] == nodes[k] && forall i :: 0 <= i < k ==> all[i] == nodes[..k][i];
    if names * Produced(nodes[..k]) * Names(nodes[k].outputs) == {} {
      forall i | 0 <= i < k ensures Names(all[i].outputs) * Names(all[k].outputs) * names == {} {
        assert Names(nodes[..k][i].outputs) <= Produced(nodes[..k]);
      }
    } else {
      var name :| name in names * Produced(nodes[..k]) * Names(nodes[k].outputs);
      var i :| 0 <= i < k && name in nodes[..k][i].outputs;
      assert name in Names(all[i].outputs) * Names(all[k].outputs) * names;
    }
  }

  /** The backward walk over the node list. */
  method Prune(nodes: seq<Node>, wanted: set<Name>) returns (kept: seq<Node>, needed: set<Name>)
    ensures kept == Kept(nodes, wanted) && needed == Needed(nodes, wanted)
  {
    needed, kept := wanted, [];
    var k := |nodes|;
    while k > 0
      invariant 0 <= k <= |nodes|
      invariant needed == Needed(nodes[k..], wanted) && kept == Kept(nodes[k..], wanted)
    {
      k := k - 1;
      assert nodes[k..][1..] == nodes[k + 1..];
      if !(needed !! Names(nodes[k].outputs)) {
        kept := [nodes[k]] + kept;
        needed := needed + Names(nodes[k].inputs);
      }
    }
    assert nodes[0..] == nodes;
  }

  /** Weight names of the first `k` convolutions and of the first `i` inputs of the next. */
  function PartWeights(convs: seq<Node>, k: nat, i: nat): set<Name>
    requires k < |convs|
  {
    WeightNames(convs[..k]) +
    set l | 1 <= l < i && l < |convs[k].inputs| && convs[k].inputs[l] != OMITTED :: convs[k].inputs[l]
  }

  lemma WeightsSnoc(convs: seq<Node>, k: nat, i: nat)
    requires k < |convs| && i >= |convs[k].inputs|
    ensures PartWeights(convs, k, i) == WeightNames(convs[..k + 1])
  {
    forall name ensures name in PartWeights(convs, k, i) <==> name in WeightNames(convs[..k + 1]) {
      if name in WeightNames(convs[..k]) {
        var j, l :| 0 <= j < k && 1 <= l < |convs[..k][j].inputs| && convs[..k][j].inputs[l] != OMITTED
          && convs[..k][j].inputs[l] == name;
        assert convs[..k + 1][j] == convs[..k][j];
      } else if name in PartWeights(convs, k, i) {
        assert convs[..k + 1][k] == convs[k];
      }
      if name in WeightNames(convs[..k + 1]) {
        var j, l :| 0 <= j < k + 1 && 1 <= l < |convs[..k + 1][j].inputs| && convs[..k + 1][j].inputs[l] != OMITTED
          && convs[..k + 1][j].inputs[l] == name;
        assert j < k ==> convs[..k][j] == convs[..k + 1][j];
      }
    }
  }

  lemma PartWeightsSnoc(convs: seq<Node>, k: nat, i: nat)
    requires k < |convs| && 1 <= i < |convs[k].inputs|
    ensures PartWeights(convs, k, i + 1) ==
            PartWeights(convs, k, i) + (if convs[k].inputs[i] == OMITTED then {} else {convs[k].inputs[i]})
  {
  }

  lemma WeightsPrefix(convs: seq<Node>, k: nat)
    requires k <= |convs|
    ensures WeightNames(convs[..k]) <= WeightNames(convs)
    ensures k == 0 ==> WeightNames(convs[..k]) == {}
    ensures k < |convs| ==> PartWeights(convs, k, 1) == WeightNames(convs[..k])
  {
    forall name | name in WeightNames(convs[..k]) ensures name in WeightNames(convs) {
      var j, l :| 0 <= j < k && 1 <= l < |convs[..k][j].inputs| && convs[..k][j].inputs[l] != OMITTED
        && convs[..k][j].inputs[l] == name;
      assert convs[j] == convs[..k][j];
    }
  }

  lemma MergeOne<V>(initializers: map<Name, V>, available: map<Name, V>, names: set<Name>, name: Name)
    requires name in available
    ensures initializers + Restrict(available, names + {name}) ==
            (initializers + Restrict(available, names))[name := available[name]]
    ensures initializers + Restrict(available, {}) == initializers
  {
  }

  /** Copy every tensor the convolutions read besides their first input. */
  method MergeTensors<V>(initializers: map<Name, V>, convs: seq<Node>, available: map<Name, V>)
    returns (r: Option<map<Name, V>>)
    ensures r.Some? <==> WeightNames(convs) <= available.Keys
    ensures r.Some? ==> r.value == initializers + Restrict(available, WeightNames(convs))
  {
    hide WeightNames;
    hide PartWeights;
    var tensors := initializers;
    WeightsPrefix(convs, 0);
    assert initializers + Restrict(available, {}) == initializers;
    hide Restrict;
    for k := 0 to |convs|
      invariant WeightNames(convs[..k]) <= available.Keys
      invariant tensors == initializers + Restrict(available, WeightNames(convs[..k]))
    {
      WeightsPrefix(convs, k);
      var i := 1;
      while i < |convs[k].inputs|
        invariant 1 <= i
        invariant PartWeights(convs, k, i) <= available.Keys
        invariant tensors == initializers + Restrict(available, PartWeights(convs, k, i))
      {
        var name := convs[k].inputs[i];
        PartWeightsSnoc(convs, k, i);
        if name != OMITTED {
          if name !in available {
            PartWithinAll(convs, k, i + 1);
            return None;
          }
          MergeOne(initializers, available, PartWeights(convs, k, i), name);
          tensors := tensors[name := available[name]];
        } else {
          assert PartWeights(convs, k, i + 1) == PartWeights(convs, k, i);
        }
        i := i + 1;
      }
      WeightsSnoc(convs, k, i);
    }
    assert convs[..|convs|] == convs;
    r := Some(tensors);
  }

  lemma PartWithinAll(convs: seq<Node>, k: nat, i: nat)
    requires k < |convs|
    ensures PartWeights(convs, k, i) <= WeightNames(convs)
  {
    WeightsPrefix(convs, k);
  }

  /** The surgery, in place on the original graph. A missing source tensor is noticed only
      after the nodes have been replaced. */
  method RestoreConvolutions<V>(original: Model<V>, source: Graph<V>) returns (verdict: Verdict)
    modifies original
    ensures verdict == Judge(old(original.nodes), source)
    ensures verdict == Restored ==>
              var nodes, wanted := ReplacedNodes(old(original.nodes), source), Names(original.outputs);
              && original.nodes == Kept(nodes, wanted)
              && original.initializers == Restrict(MergedTensors(old(original.initializers), source),
                Needed(nodes, wanted))
    ensures verdict != Restored ==> original.initializers == old(original.initializers)
    ensures verdict != Restored && verdict != MissingSourceTensor ==> original.nodes == old(original.nodes)
  {
    var convs := Convolutions(source.nodes);
    for k := 0 to |convs|
      invariant forall i :: 0 <= i < k ==> convs[i].outputs != []
    {
      if convs[k].outputs == [] {
        return ConvWithoutOutput;
      }
    }
    var replacements := Replacements(convs);
    var exchanged := ExchangeProducers(original.nodes, replacements);
    if exchanged.None? {
      return AmbiguousProducer;
    }
    var (nodes, replaced) := exchanged.value;
    if replaced != replacements.Keys {
      return MissingProducer;
    }
    var kept, needed := Prune(nodes, Names(original.outputs));
    original.nodes := kept;
    var merged := MergeTensors(original.initializers, convs, source.initializers);
    if merged.None? {
      return MissingSourceTensor;
    }
    original.initializers := Restrict(merged.value, needed);
    verdict := Restored;
  }

  lemma {:induction false} ReplacementsNamed(convs: seq<Node>)
    requires forall k :: 0 <= k < |convs| ==> convs[k].outputs != []
    ensures forall name :: name in Replacements(convs) ==>
              Replacements(convs)[name] in convs && Replacements(convs)[name].outputs[0] == name
    ensures forall conv :: conv in convs ==> conv.outputs[0] in Replacements(convs)
  {
    if convs != [] {
      ReplacementsNamed(convs[..|convs| - 1]);
      assert convs == convs[..|convs| - 1] + [convs[|convs| - 1]];
    }
  }

  /** Node `k` is the only original producer of `name`, and a convolution whose first output
      is `name` stands in its place. */
  ghost predicate StandsIn(nodes: seq<Node>, r: seq<Node>, convs: seq<Node>, name: Name, k: nat) {
    && k < |nodes| == |r| && name in nodes[k].outputs
    && (forall j :: 0 <= j < |nodes| && name in nodes[j].outputs ==> j == k)
    && r[k] in convs && r[k].outputs != [] && r[k].outputs[0] == name
  }

  lemma OnlyProducer(nodes: seq<Node>, names: set<Name>, name: Name, j: nat, k: nat)
    requires Unambiguous(nodes, names) && name in names
    requires j < |nodes| && k < |nodes| && name in nodes[j].outputs && name in nodes[k].outputs
    ensures j == k && Select(nodes[k].outputs, names) == [name]
  {
    hide Select;
    var matching := Select(nodes[k].outputs, names);
    assert name in matching && |matching| <= 1;
    assert matching[0] == name;
    var lo, hi := if j < k then j else k, if j < k then k else j;
    assert name in Names(nodes[lo].outputs) * Names(nodes[hi].outputs) * names;
    assert lo == hi;
  }

  /** In a graph that passes, each convolution's first output has exactly one producer, a
      source convolution stands in its place, and all other nodes are untouched. */
  lemma ReplacedExactly<V>(nodes: seq<Node>, source: Graph<V>, conv: Node)
    requires Judge(nodes, source) == Restored && conv in Convolutions(source.nodes)
    ensures conv.outputs != []
    ensures exists k :: StandsIn(nodes, ReplacedNodes(nodes, source), Convolutions(source.nodes), conv.outputs[0], k)
  {
    var r, convs := ReplacedNodes(nodes, source), Convolutions(source.nodes);
    var replacements := Replacements(convs);
    ReplacementsNamed(convs);
    var name := conv.outputs[0];
    assert name in Produced(nodes);
    hide Unambiguous, Replacements, Convolutions, Select;
    var k :| 0 <= k < |nodes| && name in nodes[k].outputs;
    forall j | 0 <= j < |nodes| && name in nodes[j].outputs ensures j == k {
      OnlyProducer(nodes, replacements.Keys, name, j, k);
    }
    OnlyProducer(nodes, replacements.Keys, name, k, k);
    assert StandsIn(nodes, r, convs, name, k);
  }

  lemma OthersUntouched<V>(nodes: seq<Node>, source: Graph<V>, k: nat)
    requires Judge(nodes, source) == Restored && k < |nodes|
    requires forall conv :: conv in Convolutions(source.nodes) && conv.outputs != [] ==>
             conv.outputs[0] !in nodes[k].outputs
    ensures ReplacedNodes(nodes, source)[k] == nodes[k]
  {
    var replacements := Replacements(Convolutions(source.nodes));
    ReplacementsNamed(Convolutions(source.nodes));
    forall name | name in replacements ensures name !in nodes[k].outputs {
      assert replacements[name] in Convolutions(source.nodes);
    }
    assert forall name :: name !in Select(nodes[k].outputs, replacements.Keys);
  }

  // ------------------------------------------ the surgery, said on the source graph

  /** Source node `i` is a convolution whose first output is `name`. */
  ghost predicate ConvAt(nodes: seq<Node>, i: nat, name: Name) {
    i < |nodes| && nodes[i].kind == "Conv" && nodes[i].outputs != [] && nodes[i].outputs[0] == name
  }

  ghost predicate LastConvAt(nodes: seq<Node>, i: nat, name: Name) {
    ConvAt(nodes, i, name) && forall j: nat :: j > i ==> !ConvAt(nodes, j, name)
  }

  /** Some source convolution has `name` as its first output. */
  ghost predicate FromConv(nodes: seq<Node>, name: Name) {
    exists i: nat :: ConvAt(nodes, i, name)
  }

  /** Some source convolution reads `name` past its first input. */
  ghost predicate ConvWeight(nodes: seq<Node>, name: Name) {
    && name != ""
    && exists i, l ::
         0 <= i < |nodes| && nodes[i].kind == "Conv" && 1 <= l < |nodes[i].inputs| && nodes[i].inputs[l] == name
  }

  ghost predicate EachHasOutput(nodes: seq<Node>) {
    forall i :: 0 <= i < |nodes| && nodes[i].kind == "Conv" ==> nodes[i].outputs != []
  }

  lemma {:induction false} ConvolutionsAre(nodes: seq<Node>)
    ensures forall conv :: conv in Convolutions(nodes) <==>
            exists i :: 0 <= i < |nodes| && nodes[i] == conv && conv.kind == "Conv"
  {
    if nodes != [] {
      var n := |nodes| - 1;
      var init, last := nodes[..n], nodes[n];
      ConvolutionsAre(init);
      forall conv
        ensures conv in Convolutions(nodes) <==> exists i :: 0 <= i < |nodes| && nodes[i] == conv && conv.kind == "Conv"
      {
        assert conv in Convolutions(nodes) <==> conv in Convolutions(init) || (conv == last && last.kind == "Conv");
        if i :| 0 <= i < |nodes| && nodes[i] == conv && conv.kind == "Conv" {
          assert i < n ==> init[i] == conv;
        }
        if i :| 0 <= i < |init| && init[i] == conv && conv.kind == "Conv" {
          assert nodes[i] == conv;
        }
      }
    }
  }

  lemma OutputsOf(nodes: seq<Node>)
    ensures (forall k :: 0 <= k < |Convolutions(nodes)| ==> Convolutions(nodes)[k].outputs != []) <==>
            EachHasOutput(nodes)
  {
    ConvolutionsAre(nodes);
    hide Convolutions;
    var convs := Convolutions(nodes);
    assert forall k :: 0 <= k < |convs| ==> convs[k] in convs;
    if EachHasOutput(nodes) {
      forall k | 0 <= k < |convs| ensures convs[k].outputs != [] {
        var i :| 0 <= i < |nodes| && nodes[i] == convs[k] && convs[k].kind == "Conv";
      }
    } else {
      var i :| 0 <= i < |nodes| && nodes[i].kind == "Conv" && nodes[i].outputs == [];
      assert nodes[i] in convs;
      var k :| 0 <= k < |convs| && convs[k] == nodes[i];
      assert Convolutions(nodes)[k].outputs == [];
    }
  }

  lemma ReplacementsStep(nodes: seq<Node>)
    requires nodes != [] && EachHasOutput(nodes)
    ensures var init, last := nodes[..|nodes| - 1], nodes[|nodes| - 1];
            && EachHasOutput(init)
            && (forall k :: 0 <= k < |Convolutions(init)| ==> Convolutions(init)[k].outputs != [])
            && (forall k :: 0 <= k < |Convolutions(nodes)| ==> Convolutions(nodes)[k].outputs != [])
            && Replacements(Convolutions(nodes)) ==
               var before := Replacements(Convolutions(init));
               if last.kind == "Conv" then assert last.outputs != []; before[last.outputs[0] := last] else before
  {
    var init, last := nodes[..|nodes| - 1], nodes[|nodes| - 1];
    OutputsOf(nodes);
    OutputsOf(init);
    if last.kind == "Conv" {
      var convs := Convolutions(nodes);
      assert convs == Convolutions(init) + [last];
      assert convs[..|convs| - 1] == Convolutions(init);
    } else {
      assert Convolutions(init) + [] == Convolutions(init);
    }
  }

  lemma ConvAtInit(nodes: seq<Node>, name: Name)
    requires nodes != []
    ensures var n := |nodes| - 1;
            && (FromConv(nodes, name) <==> FromConv(nodes[..n], name) || ConvAt(nodes, n, name))
            && (ConvAt(nodes, n, name) ==> forall i: nat :: LastConvAt(nodes, i, name) ==> i == n)
            && (!ConvAt(nodes, n, name) ==>
                  forall i: nat :: LastConvAt(nodes, i, name) ==> i < n && LastConvAt(nodes[..n], i, name))
  {
    var n := |nodes| - 1;
    var init := nodes[..n];
    forall i: nat ensures ConvAt(init, i, name) <==> i < n && ConvAt(nodes, i, name) { }
    hide ConvAt;
    assert forall i: nat :: ConvAt(nodes, i, name) ==> i <= n by { ConvAtBound(nodes, name); }
  }

  lemma ConvAtBound(nodes: seq<Node>, name: Name)
    ensures forall i: nat :: ConvAt(nodes, i, name) ==> i < |nodes|
  {
  }

  /** The replacement for a name is the last source convolution that produces it first. */
  lemma {:induction false} ReplacementIs(nodes: seq<Node>, name: Name)
    requires EachHasOutput(nodes)
    ensures forall k :: 0 <= k < |Convolutions(nodes)| ==> Convolutions(nodes)[k].outputs != []
    ensures name in Replacements(Convolutions(nodes)) <==> FromConv(nodes, name)
    ensures forall i: nat :: LastConvAt(nodes, i, name) ==>
              i < |nodes| && FromConv(nodes, name) && Replacements(Convolutions(nodes))[name] == nodes[i]
  {
    if nodes == [] {
      assert Convolutions(nodes) == [];
    } else {
      var n := |nodes| - 1;
      ReplacementsStep(nodes);
      ReplacementIs(nodes[..n], name);
      ConvAtInit(nodes, name);
      assert nodes[n].kind == "Conv" ==> (ConvAt(nodes, n, name) <==> nodes[n].outputs[0] == name);
      hide Replacements, Convolutions, FromConv, EachHasOutput;
      assert forall i: nat :: LastConvAt(nodes, i, name) ==> ConvAt(nodes, i, name);
      assert forall i: nat :: i < n ==> nodes[..n][i] == nodes[i];
      hide ConvAt, LastConvAt;
    }
  }

  lemma LastOf(nodes: seq<Node>, name: Name) returns (i: nat)
    requires FromConv(nodes, name)
    ensures LastConvAt(nodes, i, name)
  {
    i :| ConvAt(nodes, i, name);
    while !LastConvAt(nodes, i, name)
      invariant ConvAt(nodes, i, name)
      decreases |nodes| - i
    {
      var j: nat :| j > i && ConvAt(nodes, j, name);
      i := j;
    }
  }

  /** What stands at position `k` afterwards: the last source convolution for a name the node
      produces, or the node itself if it produces no such name. */
  lemma NodesOnSource<V>(nodes: seq<Node>, source: Graph<V>, k: nat)
    requires Judge(nodes, source) == Restored && k < |nodes|
    ensures forall name, i: nat :: name in nodes[k].outputs && LastConvAt(source.nodes, i, name) ==>
              i < |source.nodes| && ReplacedNodes(nodes, source)[k] == source.nodes[i]
    ensures forall name :: name in nodes[k].outputs && FromConv(source.nodes, name) ==>
              exists i: nat :: LastConvAt(source.nodes, i, name)
    ensures (forall name :: name in nodes[k].outputs ==> !FromConv(source.nodes, name)) ==>
              ReplacedNodes(nodes, source)[k] == nodes[k]
  {
    forall name | name in nodes[k].outputs && FromConv(source.nodes, name)
      ensures exists i: nat :: LastConvAt(source.nodes, i, name)
    {
      var i := LastOf(source.nodes, name);
    }
    OutputsOf(source.nodes);
    var replacements := Replacements(Convolutions(source.nodes));
    assert |Select(nodes[k].outputs, replacements.Keys)| <= 1;
    assert ReplacedNodes(nodes, source)[k] == ReplacedNode(nodes[k], replacements);
    hide *;
    NodeOnSource(nodes[k], source.nodes, replacements);
  }

  lemma NodeOnSource(node: Node, source: seq<Node>, replacements: map<Name, Node>)
    requires EachHasOutput(source)
    requires (forall k :: 0 <= k < |Convolutions(source)| ==> Convolutions(source)[k].outputs != [])
             && replacements == Replacements(Convolutions(source))
    requires |Select(node.outputs, replacements.Keys)| <= 1
    ensures forall name, i: nat :: name in node.outputs && LastConvAt(source, i, name) ==>
              i < |source| && ReplacedNode(node, replacements) == source[i]
    ensures (forall name :: name in node.outputs ==> !FromConv(source, name)) ==>
              ReplacedNode(node, replacements) == node
  {
    hide Convolutions, Replacements, Select, FromConv, LastConvAt, EachHasOutput;
    var matching := Select(node.outputs, replacements.Keys);
    forall name, i: nat | name in node.outputs && LastConvAt(source, i, name)
      ensures i < |source| && ReplacedNode(node, replacements) == source[i]
    {
      ReplacementIs(source, name);
      assert name in matching;
      assert matching == [name];
    }
    if forall name :: name in node.outputs ==> !FromConv(source, name) {
      if matching != [] {
        assert matching[0] in matching;
        ReplacementIs(source, matching[0]);
      }
    }
  }

  lemma {:induction false} SelectsOne(all: seq<Name>, names: set<Name>)
    ensures |Select(all, names)| <= 1 <==> forall p, q :: 0 <= p < q < |all| ==> !(all[p] in names && all[q] in names)
    ensures Select(all, names) == [] <==> forall p :: 0 <= p < |all| ==> all[p] !in names
  {
    if all != [] {
      var rest := all[1..];
      SelectsOne(rest, names);
      assert forall p :: 0 <= p < |rest| ==> rest[p] == all[p + 1];
      if forall p, q :: 0 <= p < q < |rest| ==> !(rest[p] in names && rest[q] in names) {
        if all[0] !in names || Select(rest, names) == [] {
          forall p, q | 0 <= p < q < |all| ensures !(all[p] in names && all[q] in names) {
            assert all[q] == rest[q - 1];
            if p > 0 { assert all[p] == rest[p - 1]; }
          }
        } else {
          var q :| 0 <= q < |rest| && rest[q] in names;
          assert all[0] in names && all[q + 1] in names;
        }
      } else {
        var p, q :| 0 <= p < q < |rest| && rest[p] in names && rest[q] in names;
        assert all[p + 1] in names && all[q + 1] in names;
      }
    }
  }

  /** No node lists two convolution outputs, and no two nodes list the same one. */
  ghost predicate ProducersClear(nodes: seq<Node>, source: seq<Node>) {
    && (forall k, p, q :: 0 <= k < |nodes| && 0 <= p < q < |nodes[k].outputs| ==>
          !(FromConv(source, nodes[k].outputs[p]) && FromConv(source, nodes[k].outputs[q])))
    && forall k, l, name :: 0 <= k < l < |nodes| && name in nodes[k].outputs && name in nodes[l].outputs ==>
         !FromConv(source, name)
  }

  ghost predicate ProducersPresent(nodes: seq<Node>, source: seq<Node>) {
    forall name :: FromConv(source, name) ==> exists k :: 0 <= k < |nodes| && name in nodes[k].outputs
  }

  lemma ClearIsUnambiguous(nodes: seq<Node>, source: seq<Node>, names: set<Name>)
    requires forall name :: name in names <==> FromConv(source, name)
    ensures Unambiguous(nodes, names) <==> ProducersClear(nodes, source)
  {
    hide FromConv, Select;
    forall k | 0 <= k < |nodes|
      ensures |Select(nodes[k].outputs, names)| <= 1 <==>
              forall p, q :: 0 <= p < q < |nodes[k].outputs| ==>
                               !(FromConv(source, nodes[k].outputs[p]) && FromConv(source, nodes[k].outputs[q]))
    {
      SelectsOne(nodes[k].outputs, names);
    }
    forall k, l | 0 <= k < l < |nodes|
      ensures Names(nodes[k].outputs) * Names(nodes[l].outputs) * names == {} <==>
              forall name :: name in nodes[k].outputs && name in nodes[l].outputs ==> !FromConv(source, name)
    {
      var common := Names(nodes[k].outputs) * Names(nodes[l].outputs) * names;
      assert forall name :: name in common <==>
          name in nodes[k].outputs && name in nodes[l].outputs && FromConv(source, name);
    }
  }

  lemma WeightsAre(nodes: seq<Node>, name: Name)
    ensures name in WeightNames(Convolutions(nodes)) <==> ConvWeight(nodes, name)
  {
    ConvolutionsAre(nodes);
    hide Convolutions;
    var convs := Convolutions(nodes);
    if name in WeightNames(convs) {
      var k, l :| 0 <= k < |convs| && 1 <= l < |convs[k].inputs| && convs[k].inputs[l] != OMITTED
        && convs[k].inputs[l] == name;
      assert convs[k] in convs;
      var i :| 0 <= i < |nodes| && nodes[i] == convs[k] && convs[k].kind == "Conv";
      assert nodes[i].inputs[l] == name;
    }
    if ConvWeight(nodes, name) {
      var i, l :| 0 <= i < |nodes| && nodes[i].kind == "Conv" && 1 <= l < |nodes[i].inputs|
        && nodes[i].inputs[l] == name;
      assert nodes[i] in convs;
      var k :| 0 <= k < |convs| && convs[k] == nodes[i];
      assert convs[k].inputs[l] == name;
    }
  }

  /** The four ways to fail, on the source graph: a convolution without output; convolution
      outputs that meet in one node or in two; one that nothing produces; a weight the source
      lacks. They are noticed in this order. */
  lemma VerdictOnSource<V>(nodes: seq<Node>, source: Graph<V>)
    ensures Judge(nodes, source) ==
            if !EachHasOutput(source.nodes) then ConvWithoutOutput
            else if !ProducersClear(nodes, source.nodes) then AmbiguousProducer
            else if !ProducersPresent(nodes, source.nodes) then MissingProducer
            else if exists name :: ConvWeight(source.nodes, name) && name !in source.initializers then
              MissingSourceTensor
            else Restored
  {
    OutputsOf(source.nodes);
    if EachHasOutput(source.nodes) {
      var names := Replacements(Convolutions(source.nodes)).Keys;
      forall name ensures name in names <==> FromConv(source.nodes, name) { ReplacementIs(source.nodes, name); }
      ClearIsUnambiguous(nodes, source.nodes, names);
      forall name ensures name in WeightNames(Convolutions(source.nodes)) <==> ConvWeight(source.nodes, name) {
        WeightsAre(source.nodes, name);
      }
      hide ProducersClear, Unambiguous, FromConv, ConvWeight, Replacements, Convolutions, WeightNames;
      assert forall name :: name in Produced(nodes) <==> exists k :: 0 <= k < |nodes| && name in nodes[k].outputs;
    }
  }

  /** Tensors change only under names that a source convolution reads past its first input,
      and there they become the source's. */
  lemma TensorsOnSource<V>(initializers: map<Name, V>, source: Graph<V>, name: Name)
    ensures var merged := MergedTensors(initializers, source);
            if ConvWeight(source.nodes, name) && name in source.initializers then
              name in merged && merged[name] == source.initializers[name]
            else
              (name in merged <==> name in initializers)
                && (name in initializers ==> merged[name] == initializers[name])
  {
    WeightsAre(source.nodes, name);
  }

  /** Tensors are kept exactly under names that are outputs of the graph or inputs of a kept node. */
  lemma {:induction false} NeededIsReadByKept(nodes: seq<Node>, wanted: set<Name>, name: Name)
    ensures name in Needed(nodes, wanted) <==>
            name in wanted || exists node :: node in Kept(nodes, wanted) && name in node.inputs
  {
    if nodes != [] {
      NeededIsReadByKept(nodes[1..], wanted, name);
      var dropped := Needed(nodes[1..], wanted) !! Names(nodes[0].outputs);
      assert forall node :: node in Kept(nodes, wanted) <==>
          node in Kept(nodes[1..], wanted) || (!dropped && node == nodes[0]);
    }
  }

  // ----------------------------------------------- whether the result hangs together

  /** Node by node: what is read is given or produced earlier. */
  lemma {:induction false} WellFormedAt(nodes: seq<Node>, given: set<Name>)
    ensures WellFormed(nodes, given) <==>
            forall k :: 0 <= k < |nodes| ==> Names(nodes[k].inputs) - {OMITTED} <= given + Produced(nodes[..k])
    decreases |nodes|
  {
    hide Produced;
    if nodes != [] {
      var first, rest := nodes[0], nodes[1..];
      var more := given + Names(first.outputs);
      WellFormedAt(rest, more);
      forall k | 0 <= k < |rest|
        ensures rest[k] == nodes[k + 1] && more + Produced(rest[..k]) == given + Produced(nodes[..k + 1])
      {
        ProducedCons(nodes, k + 1);
        assert nodes[1..][..k] == nodes[1..k + 1];
      }
      assert nodes[..0] == [];
      NothingProduced({});
      assert WellFormed(nodes, given) <==> Names(first.inputs) - {OMITTED} <= given && WellFormed(rest, more);
      hide WellFormed;
      assert forall k :: 0 < k < |nodes| ==> nodes[k] == rest[k - 1];
    }
  }

  lemma ProducedCons(nodes: seq<Node>, k: nat)
    requires 0 < k <= |nodes|
    ensures Produced(nodes[..k]) == Names(nodes[0].outputs) + Produced(nodes[1..k])
  {
    forall name ensures name in Produced(nodes[..k]) <==> name in Names(nodes[0].outputs) + Produced(nodes[1..k]) {
      if i :| 0 <= i < k && name in nodes[..k][i].outputs {
        assert i > 0 ==> nodes[1..k][i - 1] == nodes[..k][i];
      }
      if i :| 0 <= i < k - 1 && name in nodes[1..k][i].outputs {
        assert nodes[..k][i + 1] == nodes[1..k][i];
      }
      if name in nodes[0].outputs { assert nodes[..k][0] == nodes[0]; }
    }
  }

  /** The names the replaced graph is given: those of the original and the weights. */
  function GivenAfter<V>(given: set<Name>, source: Graph<V>): set<Name> {
    given + WeightNames(Convolutions(source.nodes))
  }

  /** Position `k` holds a convolution after the exchange. */
  predicate IsReplaced<V>(nodes: seq<Node>, source: Graph<V>, k: nat)
    requires k < |nodes|
  {
    exists conv :: conv in Convolutions(source.nodes) && conv.outputs != [] && conv.outputs[0] in nodes[k].outputs
  }

  /** Names available to node `k` in the original but no longer in the replaced graph. */
  ghost function Lost<V>(nodes: seq<Node>, source: Graph<V>, given: set<Name>, k: nat): set<Name>
    requires Judge(nodes, source) == Restored && k < |nodes|
  {
    (given + Produced(nodes[..k])) - (GivenAfter(given, source) + Produced(ReplacedNodes(nodes, source)[..k]))
  }

  /** Every convolution finds its first input, and no other node reads a lost name. */
  ghost predicate ReadsResolved<V>(nodes: seq<Node>, source: Graph<V>, given: set<Name>)
    requires Judge(nodes, source) == Restored
  {
    forall k :: 0 <= k < |nodes| ==> ReadsResolvedAt(nodes, source, given, k)
  }

  ghost predicate ReadsResolvedAt<V>(nodes: seq<Node>, source: Graph<V>, given: set<Name>, k: nat)
    requires Judge(nodes, source) == Restored && k < |nodes|
  {
    var r := ReplacedNodes(nodes, source);
    if IsReplaced(nodes, source, k) then
      |r[k].inputs| > 0 && r[k].inputs[0] != OMITTED ==> r[k].inputs[0] in GivenAfter(given, source) + Produced(r[..k])
    else
      Names(nodes[k].inputs) - {OMITTED} !! Lost(nodes, source, given, k)
  }

  lemma ReplacedNodeAt<V>(nodes: seq<Node>, source: Graph<V>, k: nat)
    requires Judge(nodes, source) == Restored && k < |nodes|
    ensures if IsReplaced(nodes, source, k) then ReplacedNodes(nodes, source)[k] in Convolutions(source.nodes)
            else ReplacedNodes(nodes, source)[k] == nodes[k]
  {
    var convs := Convolutions(source.nodes);
    ReplacementsNamed(convs);
    var replacements := Replacements(convs);
    assert ReplacedNodes(nodes, source)[k] == ReplacedNode(nodes[k], replacements);
    assert forall conv :: conv in convs ==> conv.outputs != [];
    hide Judge, Convolutions, Replacements, ReplacedNode, ReplacedNodes;
    Exchanged(nodes[k], convs, replacements);
  }

  lemma Exchanged(node: Node, convs: seq<Node>, replacements: map<Name, Node>)
    requires forall conv :: conv in convs ==> conv.outputs != [] && conv.outputs[0] in replacements
    requires forall name :: name in replacements ==>
               replacements[name] in convs && replacements[name].outputs != [] && replacements[name].outputs[0] == name
    ensures if exists conv :: conv in convs && conv.outputs != [] && conv.outputs[0] in node.outputs
            then ReplacedNode(node, replacements) in convs
            else ReplacedNode(node, replacements) == node
  {
    hide Select;
    var matching := Select(node.outputs, replacements.Keys);
    if matching != [] {
      assert matching[0] in matching;
      var conv := replacements[matching[0]];
      assert conv in convs && conv.outputs[0] in node.outputs;
    } else {
      assert forall conv :: conv in convs && conv.outputs[0] in node.outputs ==> conv.outputs[0] in matching;
    }
  }

  /** What a convolution reads beyond its first input is among the weights. */
  lemma ConvReads(convs: seq<Node>, conv: Node, available: set<Name>)
    requires conv in convs && WeightNames(convs) <= available
    ensures Names(conv.inputs) - {OMITTED} <= available <==>
            (|conv.inputs| > 0 && conv.inputs[0] != OMITTED ==> conv.inputs[0] in available)
  {
    var k :| 0 <= k < |convs| && convs[k] == conv;
    forall i | 1 <= i < |conv.inputs| && conv.inputs[i] != OMITTED ensures conv.inputs[i] in available {
      assert convs[k].inputs[i] in WeightNames(convs);
    }
    if |conv.inputs| > 0 && conv.inputs[0] != OMITTED { assert conv.inputs[0] in Names(conv.inputs); }
    if |conv.inputs| > 0 && conv.inputs[0] != OMITTED ==> conv.inputs[0] in available {
      forall name | name in Names(conv.inputs) - {OMITTED} ensures name in available {
        var i :| 0 <= i < |conv.inputs| && conv.inputs[i] == name;
      }
    }
  }

  /** For a well-formed original that passes: the replaced list is well formed exactly when
      every convolution finds its first input and no other node reads a lost name. The
      surgery checks neither. */
  lemma WellFormedIffResolved<V>(nodes: seq<Node>, source: Graph<V>, given: set<Name>)
    requires Judge(nodes, source) == Restored && WellFormed(nodes, given)
    ensures WellFormed(ReplacedNodes(nodes, source), GivenAfter(given, source)) <==> ReadsResolved(nodes, source, given)
  {
    var r, after, convs := ReplacedNodes(nodes, source), GivenAfter(given, source), Convolutions(source.nodes);
    WellFormedAt(nodes, given);
    WellFormedAt(r, after);
    assert WeightNames(convs) <= after;
    hide Judge, ReplacedNodes, GivenAfter, WeightNames, Produced, WellFormed, IsReplaced, Convolutions;
    forall k | 0 <= k < |nodes|
      ensures Names(r[k].inputs) - {OMITTED} <= after + Produced(r[..k]) <==>
              ReadsResolvedAt(nodes, source, given, k)
    {
      ReplacedNodeAt(nodes, source, k);
      if IsReplaced(nodes, source, k) { ConvReads(convs, r[k], after + Produced(r[..k])); }
    }
  }

  /** A lost name is a further output of a replaced node. */
  lemma LostIsExtraOutput<V>(nodes: seq<Node>, source: Graph<V>, given: set<Name>, k: nat, name: Name)
    requires Judge(nodes, source) == Restored && k < |nodes| && name in Lost(nodes, source, given, k)
    ensures exists j :: 0 <= j < k && IsReplaced(nodes, source, j) && name in nodes[j].outputs
                        && name !in ReplacedNodes(nodes, source)[j].outputs
  {
    var r := ReplacedNodes(nodes, source);
    var j :| 0 <= j < k && name in nodes[..k][j].outputs;
    ReplacedNodeAt(nodes, source, j);
    assert r[..k][j] == r[j] && nodes[..k][j] == nodes[j];
    assert name !in r[..k][j].outputs;
  }

  /** Every source convolution has one output, and it is a real name. */
  predicate OneOutputEach<V>(source: Graph<V>) {
    forall conv :: conv in Convolutions(source.nodes) ==> |conv.outputs| == 1 && conv.outputs[0] != OMITTED
  }

  predicate IsConvOutput<V>(source: Graph<V>, name: Name) {
    exists conv :: conv in Convolutions(source.nodes) && conv.outputs != [] && conv.outputs[0] == name
  }

  /** A further output of a node before `k` that produces a convolution's output. */
  predicate IsExtraOutput<V>(nodes: seq<Node>, source: Graph<V>, k: nat, name: Name)
    requires k <= |nodes|
  {
    exists j :: 0 <= j < k && IsReplaced(nodes, source, j) && name in nodes[j].outputs && !IsConvOutput(source, name)
  }

  /** The outputs of a replaced node and of the convolution in its place. */
  lemma ExchangedOutputs<V>(nodes: seq<Node>, source: Graph<V>, j: nat, name: Name)
    requires Judge(nodes, source) == Restored && OneOutputEach(source) && j < |nodes|
    ensures name in ReplacedNodes(nodes, source)[j].outputs <==>
            name in nodes[j].outputs && (IsReplaced(nodes, source, j) ==> IsConvOutput(source, name))
  {
    var convs := Convolutions(source.nodes);
    ReplacementsNamed(convs);
    var replacements := Replacements(convs);
    assert ReplacedNodes(nodes, source)[j] == ReplacedNode(nodes[j], replacements);
    assert |Select(nodes[j].outputs, replacements.Keys)| <= 1;
    hide Judge, Convolutions, Replacements, ReplacedNode, ReplacedNodes;
    OutputsOfExchanged(nodes[j], convs, replacements, name);
  }

  lemma OutputsOfExchanged(node: Node, convs: seq<Node>, replacements: map<Name, Node>, name: Name)
    requires forall conv :: conv in convs ==> |conv.outputs| == 1 && conv.outputs[0] in replacements
    requires forall key :: key in replacements ==>
               replacements[key] in convs && replacements[key].outputs != [] && replacements[key].outputs[0] == key
    requires |Select(node.outputs, replacements.Keys)| <= 1
    ensures name in ReplacedNode(node, replacements).outputs <==>
            name in node.outputs
            && ((exists conv :: conv in convs && conv.outputs != [] && conv.outputs[0] in node.outputs) ==>
                  exists conv :: conv in convs && conv.outputs != [] && conv.outputs[0] == name)
  {
    hide Select;
    var matching := Select(node.outputs, replacements.Keys);
    if matching == [] {
      assert forall conv :: conv in convs && conv.outputs[0] in node.outputs ==> conv.outputs[0] in matching;
    } else {
      var key := matching[0];
      var conv := replacements[key];
      assert key in matching && matching == [key];
      assert conv.outputs == [key] && ReplacedNode(node, replacements) == conv;
      if other :| other in convs && other.outputs[0] == name && name in node.outputs {
        assert name in matching;
      }
    }
  }

  lemma {:induction false} AssignedOnce(nodes: seq<Node>, given: set<Name>, i: nat, j: nat, name: Name)
    requires SingleAssignment(nodes, given) && i < |nodes| && j < |nodes| && name != OMITTED
    requires name in nodes[i].outputs && name in nodes[j].outputs
    ensures i == j && name !in given
    decreases |nodes|
  {
    var more := given + Names(nodes[0].outputs);
    assert i == 0 || j == 0 ==> name !in Names(nodes[0].outputs) * given;
    if i > 0 { AssignedOnce(nodes[1..], more, i - 1, if j > 0 then j - 1 else i - 1, name); }
    if j > 0 { AssignedOnce(nodes[1..], more, j - 1, if i > 0 then i - 1 else j - 1, name); }
  }

  /** With single assignment, the replaced graph defines before node `k` what the original
      defined, except the further outputs of replaced nodes. */
  lemma StillProduced<V>(nodes: seq<Node>, source: Graph<V>, given: set<Name>, k: nat, name: Name)
    requires Judge(nodes, source) == Restored && OneOutputEach(source)
    requires SingleAssignment(nodes, given) && k <= |nodes| && name != OMITTED
    ensures name in Produced(ReplacedNodes(nodes, source)[..k]) <==>
            name in Produced(nodes[..k]) && !IsExtraOutput(nodes, source, k, name)
  {
    var r := ReplacedNodes(nodes, source);
    assert |r| == |nodes|;
    hide Judge, OneOutputEach, IsReplaced, IsConvOutput, ReplacedNodes, SingleAssignment;
    assert forall j :: 0 <= j < k ==> r[..k][j] == r[j] && nodes[..k][j] == nodes[j];
    forall j | 0 <= j < k
      ensures name in r[j].outputs <==>
              name in nodes[j].outputs && (IsReplaced(nodes, source, j) ==> IsConvOutput(source, name))
    {
      ExchangedOutputs(nodes, source, j, name);
    }
    if i :| 0 <= i < k && name in nodes[i].outputs {
      forall j | 0 <= j < k && name in nodes[j].outputs ensures j == i { AssignedOnce(nodes, given, i, j, name); }
    }
  }

  /** With single assignment, the lost names are exactly the further outputs of replaced
      nodes, unless the graph is given them. */
  lemma LostExactly<V>(nodes: seq<Node>, source: Graph<V>, given: set<Name>, k: nat, name: Name)
    requires Judge(nodes, source) == Restored && OneOutputEach(source)
    requires SingleAssignment(nodes, given) && k < |nodes| && name != OMITTED
    ensures name in Lost(nodes, source, given, k) <==>
            name !in GivenAfter(given, source) && IsExtraOutput(nodes, source, k, name)
  {
    StillProduced(nodes, source, given, k, name);
    if j :| 0 <= j < k && name in nodes[j].outputs { assert nodes[..k][j] == nodes[j]; }
  }

  /** A name defined before node `k` that the exchange does not take away. */
  predicate StaysDefined<V>(nodes: seq<Node>, source: Graph<V>, given: set<Name>, k: nat, name: Name)
    requires k <= |nodes|
  {
    || name == OMITTED || name in GivenAfter(given, source)
    || (name in Produced(nodes[..k]) && !IsExtraOutput(nodes, source, k, name))
  }

  /** In the original graph: the first input of each convolution is defined before the node it
      replaces, and neither it nor any input of another node is an extra output. */
  ghost predicate Resolvable<V>(nodes: seq<Node>, source: Graph<V>, given: set<Name>)
    requires Judge(nodes, source) == Restored
  {
    forall k :: 0 <= k < |nodes| ==> ResolvableAt(nodes, source, given, k)
  }

  ghost predicate ResolvableAt<V>(nodes: seq<Node>, source: Graph<V>, given: set<Name>, k: nat)
    requires Judge(nodes, source) == Restored && k < |nodes|
  {
    if IsReplaced(nodes, source, k) then
      var conv := ReplacedNodes(nodes, source)[k];
      |conv.inputs| > 0 ==> StaysDefined(nodes, source, given, k, conv.inputs[0])
    else
      forall name :: name in nodes[k].inputs && name != OMITTED && name !in GivenAfter(given, source) ==>
                       !IsExtraOutput(nodes, source, k, name)
  }

  lemma ResolvedIffResolvable<V>(nodes: seq<Node>, source: Graph<V>, given: set<Name>, k: nat)
    requires Judge(nodes, source) == Restored && OneOutputEach(source)
    requires SingleAssignment(nodes, given) && k < |nodes|
    ensures ReadsResolvedAt(nodes, source, given, k) <==> ResolvableAt(nodes, source, given, k)
  {
    assert |ReplacedNodes(nodes, source)| == |nodes|;
    hide Judge, OneOutputEach, ReplacedNodes, GivenAfter, SingleAssignment, IsReplaced, IsExtraOutput, Lost, Produced;
    if IsReplaced(nodes, source, k) {
      var conv := ReplacedNodes(nodes, source)[k];
      if |conv.inputs| > 0 && conv.inputs[0] != OMITTED { StillProduced(nodes, source, given, k, conv.inputs[0]); }
    } else {
      forall name | name in nodes[k].inputs && name != OMITTED
        ensures name in Lost(nodes, source, given, k) <==>
                name !in GivenAfter(given, source) && IsExtraOutput(nodes, source, k, name)
      {
        LostExactly(nodes, source, given, k, name);
      }
    }
  }

  /** For a single-assignment original that is well formed and passes: the replaced graph is
      well formed exactly when, in the original, every convolution's first input is defined
      in time and nothing reads a further output of a replaced node. */
  lemma WellFormedIffResolvable<V>(nodes: seq<Node>, source: Graph<V>, given: set<Name>)
    requires Judge(nodes, source) == Restored && OneOutputEach(source)
    requires WellFormed(nodes, given) && SingleAssignment(nodes, given)
    ensures WellFormed(ReplacedNodes(nodes, source), GivenAfter(given, source)) <==> Resolvable(nodes, source, given)
  {
    WellFormedIffResolved(nodes, source, given);
    hide *;
    ResolvedIffResolvableAll(nodes, source, given);
  }

  lemma ResolvedIffResolvableAll<V>(nodes: seq<Node>, source: Graph<V>, given: set<Name>)
    requires Judge(nodes, source) == Restored && OneOutputEach(source) && SingleAssignment(nodes, given)
    ensures ReadsResolved(nodes, source, given) <==> Resolvable(nodes, source, given)
  {
    hide Judge, OneOutputEach, SingleAssignment, ReadsResolvedAt, ResolvableAt;
    forall k | 0 <= k < |nodes|
      ensures ReadsResolvedAt(nodes, source, given, k) <==> ResolvableAt(nodes, source, given, k)
    {
      ResolvedIffResolvable(nodes, source, given, k);
    }
  }

  /** Then the restored model hangs together, too: every input of every kept node is a feed,
      a kept tensor or an output of an earlier kept node. */
  lemma RestoredInputsDefined<V>(nodes: seq<Node>, initializers: map<Name, V>, outputs: seq<Name>, source: Graph<V>,
                                 feeds: set<Name>)
    requires Judge(nodes, source) == Restored && WellFormed(nodes, initializers.Keys + feeds)
    requires ReadsResolved(nodes, source, initializers.Keys + feeds)
    ensures var r, wanted := ReplacedNodes(nodes, source), Names(outputs);
            WellFormed(Kept(r, wanted), Restrict(MergedTensors(initializers, source), Needed(r, wanted)).Keys + feeds)
  {
    var given, r, wanted := initializers.Keys + feeds, ReplacedNodes(nodes, source), Names(outputs);
    var merged := MergedTensors(initializers, source);
    WellFormedIffResolved(nodes, source, given);
    assert merged.Keys == initializers.Keys + WeightNames(Convolutions(source.nodes));
    KeptInputsDefined(r, wanted, GivenAfter(given, source), Restrict(merged, Needed(r, wanted)).Keys + feeds);
  }

  /** A graph that passes although its restored convolution reads a name nothing defines. */
  lemma DanglingConvolution()
    ensures var nodes := [Node("Cast", 0, ["x"], [], ["y"])];
            var source := Graph([Node("Conv", 0, ["z", "w"], [], ["y"])], map["w" := 1], ["y"]);
            && Judge(nodes, source) == Restored && WellFormed(nodes, {"x"})
            && !ReadsResolved(nodes, source, {"x"})
            && !WellFormed(ReplacedNodes(nodes, source), GivenAfter({"x"}, source))
  {
    var node, conv := Node("Cast", 0, ["x"], [], ["y"]), Node("Conv", 0, ["z", "w"], [], ["y"]);
    var nodes, source := [node], Graph([conv], map["w" := 1], ["y"]);
    assert [conv][..0] == [];
    assert Convolutions([conv]) == [conv];
    assert Replacements([conv]) == map["y" := conv];
    assert node.outputs[0] == "y" && nodes[0] == node;
    assert Select(["y"], {"y"}) == ["y"] by { assert ["y"][1..] == []; }
    assert "y" in Produced(nodes);
    assert WeightNames([conv]) == {"w"} by { assert [conv][0].inputs[1] == "w"; }
    assert Replacements([conv]).Keys == {"y"};
    assert Select(node.outputs, {"y"}) == ["y"];
    assert Unambiguous(nodes, {"y"});
    assert Judge(nodes, source) == Restored;
    assert "z" in Names(conv.inputs) by { assert conv.inputs[0] == "z"; }
    var r := ReplacedNodes(nodes, source);
    assert r[0] == conv;
    assert GivenAfter({"x"}, source) == {"x", "w"};
    assert "z"[0] != "x"[0] && "z"[0] != "w"[0] && |OMITTED| == 0;
    assert "z" in Names(r[0].inputs) - {OMITTED} && "z" !in {"x", "w"};
    assert !WellFormed(r, {"x", "w"});
    WellFormedIffResolved(nodes, source, {"x"});
  }

  /** The restored model computes, at every output and for every input, what the replaced
      graph computes before pruning. */
  lemma RestoredMeaning<V>(sem: Semantics<V>, nodes: seq<Node>, initializers: map<Name, V>, outputs: seq<Name>,
                           source: Graph<V>, feeds: Environment<V>)
    requires Judge(nodes, source) == Restored && CapturesNeeded(ReplacedNodes(nodes, source), Names(outputs))
    ensures var replaced, tensors := ReplacedNodes(nodes, source), MergedTensors(initializers, source);
            OutputValues(sem, Kept(replaced, Names(outputs)), Restrict(tensors, Needed(replaced, Names(outputs))),
              outputs, feeds) ==
            OutputValues(sem, replaced, tensors, outputs, feeds)
  {
    PruningPreservesMeaning(sem, ReplacedNodes(nodes, source), MergedTensors(initializers, source), outputs, feeds);
  }

  /** Every original tensor keeps its value exactly when each tensor the convolutions bring
      agrees with an original one of the same name. */
  lemma OriginalTensorsKept<V>(initializers: map<Name, V>, source: Graph<V>)
    ensures var weights, merged := WeightNames(Convolutions(source.nodes)), MergedTensors(initializers, source);
            (forall name :: name in initializers ==> merged[name] == initializers[name]) <==>
            (forall name :: name in weights && name in initializers && name in source.initializers ==>
                              source.initializers[name] == initializers[name])
  {
    var weights := WeightNames(Convolutions(source.nodes));
    forall name | name in initializers
      ensures MergedTensors(initializers, source)[name] ==
              if name in weights && name in source.initializers then source.initializers[name] else initializers[name]
    {
    }
  }

  /** A restored convolution finds its source weights: whatever it reads besides its first
      input is in the restored model, with the value it has in the source graph. */
  lemma WeightsRestored<V>(nodes: seq<Node>, initializers: map<Name, V>, outputs: seq<Name>, source: Graph<V>,
                           conv: Node, i: nat)
    requires Judge(nodes, source) == Restored
    requires conv in Kept(ReplacedNodes(nodes, source), Names(outputs)) && conv in Convolutions(source.nodes)
    requires 1 <= i < |conv.inputs| && conv.inputs[i] != OMITTED
    ensures var restored := Restrict(MergedTensors(initializers, source),
            Needed(ReplacedNodes(nodes, source), Names(outputs)));
            && conv.inputs[i] in restored
            && conv.inputs[i] in source.initializers && restored[conv.inputs[i]] == source.initializers[conv.inputs[i]]
  {
    var convs := Convolutions(source.nodes);
    var k :| 0 <= k < |convs| && convs[k] == conv;
    assert convs[k].inputs[i] in WeightNames(convs);
    KeptInputsNeeded(ReplacedNodes(nodes, source), Names(outputs), conv);
  }

  lemma {:induction false} KeptInputsNeeded(nodes: seq<Node>, wanted: set<Name>, node: Node)
    requires node in Kept(nodes, wanted)
    ensures Names(node.inputs) <= Needed(nodes, wanted)
  {
    if node in Kept(nodes[1..], wanted) {
      KeptInputsNeeded(nodes[1..], wanted, node);
    }
  }
}
