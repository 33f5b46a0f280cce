/** Recovering Linear weights from an exported graph: each bias addition is traced back to
  its matrix product and that product's anonymous weight, and the checks around the trace
  make the pairing exact.
  */
module Converter {
  import opened Options

  type Name = string
  datatype Node = Node(kind: string, inputs: seq<Name>, outputs: seq<Name>)

  /** A weight matrix or any other tensor, with its transpose. */
  datatype Tensor = Tensor(data: seq<seq<real>>)

  const BIAS := ".bias"
  const WEIGHT := ".weight"
  const ANONYMOUS := "onnx::MatMul"

  predicate EndsWith(name: Name, suffix: string) {
    |suffix| <= |name| && name[|name| - |suffix|..] == suffix
  }

  predicate IsBias(inits: map<Name, Tensor>, name: Name) { name in inits && EndsWith(name, BIAS) }

  predicate IsAnonymous(inits: map<Name, Tensor>, name: Name) { name in inits && ANONYMOUS <= name }

  function Anonymous(inits: map<Name, Tensor>): set<Name> {
    set name | name in inits && ANONYMOUS <= name
  }

  /** The output key of the weight that goes with a bias. */
  function WeightKey(bias: Name): Name
    requires EndsWith(bias, BIAS)
  {
    bias[..|bias| - |BIAS|] + WEIGHT
  }

  lemma WeightKeyInjective(x: Name, y: Name)
    requires EndsWith(x, BIAS) && EndsWith(y, BIAS) && WeightKey(x) == WeightKey(y)
    ensures x == y
  {
    var a, b := x[..|x| - |BIAS|], y[..|y| - |BIAS|];
    assert a == WeightKey(x)[..|WeightKey(x)| - |WEIGHT|] == WeightKey(y)[..|WeightKey(y)| - |WEIGHT|] == b;
    assert x == a + BIAS && y == b + BIAS;
  }

  /** The last node that lists `name` among its outputs. */
  function Producer(nodes: seq<Node>, name: Name): (p: Option<Node>)
    ensures p.Some? ==> p.value in nodes && name in p.value.outputs
  {
    if nodes == [] then None
    else if name in nodes[|nodes| - 1].outputs then Some(nodes[|nodes| - 1])
    else Producer(nodes[..|nodes| - 1], name)
  }

  function FirstAnonymous(inits: map<Name, Tensor>, names: seq<Name>): (r: Option<Name>)
    ensures r.Some? ==> r.value in names && IsAnonymous(inits, r.value)
  {
    if names == [] then None
    else if IsAnonymous(inits, names[0]) then Some(names[0])
    else FirstAnonymous(inits, names[1..])
  }

  function Pick(inits: map<Name, Tensor>, names: seq<Name>, bias: bool): (r: seq<Name>)
    ensures forall name :: name in r ==> name in names && IsBias(inits, name) == bias
  {
    if names == [] then [] else
    (if IsBias(inits, names[0]) == bias then [names[0]] else []) + Pick(inits, names[1..], bias)
  }

  /** An addition with one bias and one other input has two inputs: a separate failure for any
      other count can never be raised. */
  lemma {:induction false} LinearAddHasTwoInputs(inits: map<Name, Tensor>, names: seq<Name>)
    ensures |Pick(inits, names, true)| + |Pick(inits, names, false)| == |names|
  {
    if names != [] { LinearAddHasTwoInputs(inits, names[1..]); }
  }

  /** What the trace finds at one node: the bias and the anonymous weight of a Linear layer. */
  function Trace(nodes: seq<Node>, inits: map<Name, Tensor>, node: Node): (r: Option<(Name, Name)>)
    ensures r.Some? ==> IsBias(inits, r.value.0) && IsAnonymous(inits, r.value.1)
  {
    if node.kind != "Add" then None else
    var biases, others := Pick(inits, node.inputs, true), Pick(inits, node.inputs, false);
    if |biases| != 1 || |others| != 1 then None else
    assert biases[0] in biases;
    var product := Producer(nodes, others[0]);
    if product.None? || product.value.kind != "MatMul" then None else
    var weight := FirstAnonymous(inits, product.value.inputs);
    if weight.None? then None else Some((biases[0], weight.value))
  }

  function Transposed(t: Tensor): Tensor {
    if t.data == [] then t
    else Tensor(seq(|t.data[0]|, c requires 0 <= c < |t.data[0]| =>
                    seq(|t.data|, r requires 0 <= r < |t.data| => if c < |t.data[r]| then t.data[r][c] else 0.0)))
  }

  ghost predicate Rectangular(t: Tensor, columns: nat) {
    t.data != [] && forall i :: 0 <= i < |t.data| ==> |t.data[i]| == columns
  }

  /** If `weight` is rectangular, `saved` has its rows as columns and its columns as rows. */
  ghost predicate SavesColumns(saved: Tensor, weight: Tensor) {
    forall columns :: Rectangular(weight, columns) ==>
      && |saved.data| == columns
      && (forall j :: 0 <= j < columns ==> |saved.data[j]| == |weight.data|)
      && forall i, j :: 0 <= i < |weight.data| && 0 <= j < columns ==> saved.data[j][i] == weight.data[i][j]
  }

  /** Every rectangular weight is saved with rows and columns exchanged. */
  lemma TransposedSaves(weight: Tensor)
    ensures SavesColumns(Transposed(weight), weight)
  {
  }

  /** The node adds the bias in input `i` to a matrix product by the weight in the product's
      input `w`; the product is the last node that produces the other input, and the weight
      its first anonymous initializer. */
  ghost predicate AddsBias(nodes: seq<Node>, inits: map<Name, Tensor>, node: Node, bias: Name, weight: Name,
                           i: nat, p: nat, w: nat)
  {
    && node.kind == "Add" && |node.inputs| == 2 && i < 2 && p < |nodes| && w < |nodes[p].inputs|
    && node.inputs[i] == bias && bias in inits && |bias| >= 5 && bias[|bias| - 5..] == ".bias"
    && var other := node.inputs[1 - i];
    && (other in inits ==> |other| < 5 || other[|other| - 5..] != ".bias")
    && nodes[p].kind == "MatMul" && other in nodes[p].outputs
    && (forall q :: p < q < |nodes| ==> other !in nodes[q].outputs)
    && nodes[p].inputs[w] == weight && weight in inits && "onnx::MatMul" <= weight
    && forall v :: 0 <= v < w && nodes[p].inputs[v] in inits ==> !("onnx::MatMul" <= nodes[p].inputs[v])
  }

  lemma PickTwo(inits: map<Name, Tensor>, names: seq<Name>, i: nat)
    requires |names| == 2 && i < 2 && IsBias(inits, names[i]) && !IsBias(inits, names[1 - i])
    ensures Pick(inits, names, true) == [names[i]] && Pick(inits, names, false) == [names[1 - i]]
  {
    assert names[1..] == [names[1]];
    assert Pick(inits, [names[1]][1..], true) == [] && Pick(inits, [names[1]][1..], false) == [];
  }

  lemma PickedTwo(inits: map<Name, Tensor>, names: seq<Name>)
    requires |Pick(inits, names, true)| == 1 && |Pick(inits, names, false)| == 1
    ensures |names| == 2 && (IsBias(inits, names[0]) <==> !IsBias(inits, names[1]))
  {
    LinearAddHasTwoInputs(inits, names);
    assert names == [names[0], names[1]];
    assert names[1..] == [names[1]];
    assert Pick(inits, [names[1]][1..], true) == [] && Pick(inits, [names[1]][1..], false) == [];
  }

  lemma {:induction false} LastProducer(nodes: seq<Node>, name: Name)
    ensures Producer(nodes, name).None? <==> forall q :: 0 <= q < |nodes| ==> name !in nodes[q].outputs
    ensures forall p :: 0 <= p < |nodes| && name in nodes[p].outputs
                        && (forall q :: p < q < |nodes| ==> name !in nodes[q].outputs) ==>
                          Producer(nodes, name) == Some(nodes[p])
  {
    if nodes != [] {
      var n := |nodes| - 1;
      LastProducer(nodes[..n], name);
    }
  }

  lemma {:induction false} LastIndex(nodes: seq<Node>, name: Name) returns (p: nat)
    requires Producer(nodes, name).Some?
    ensures p < |nodes| && name in nodes[p].outputs && forall q :: p < q < |nodes| ==> name !in nodes[q].outputs
    ensures Producer(nodes, name) == Some(nodes[p])
  {
    p := |nodes| - 1;
    if name !in nodes[p].outputs { p := LastIndex(nodes[..p], name); }
  }

  lemma {:induction false} FirstIndex(inits: map<Name, Tensor>, names: seq<Name>)
    ensures FirstAnonymous(inits, names).None? <==> forall v :: 0 <= v < |names| ==> !IsAnonymous(inits, names[v])
    ensures forall w :: 0 <= w < |names| && IsAnonymous(inits, names[w])
                        && (forall v :: 0 <= v < w ==> !IsAnonymous(inits, names[v])) ==>
                          FirstAnonymous(inits, names) == Some(names[w])
  {
    if names != [] { FirstIndex(inits, names[1..]); }
  }

  lemma {:induction false} IndexOfFirst(inits: map<Name, Tensor>, names: seq<Name>) returns (w: nat)
    requires FirstAnonymous(inits, names).Some?
    ensures w < |names| && IsAnonymous(inits, names[w]) && forall v :: 0 <= v < w ==> !IsAnonymous(inits, names[v])
    ensures FirstAnonymous(inits, names) == Some(names[w])
  {
    w := 0;
    if !IsAnonymous(inits, names[0]) {
      w := IndexOfFirst(inits, names[1..]);
      w := w + 1;
    }
  }

  lemma TraceFound(nodes: seq<Node>, inits: map<Name, Tensor>, node: Node) returns (i: nat, p: nat, w: nat)
    requires Trace(nodes, inits, node).Some?
    ensures var t := Trace(nodes, inits, node).value; AddsBias(nodes, inits, node, t.0, t.1, i, p, w)
  {
    PickedTwo(inits, node.inputs);
    i := if IsBias(inits, node.inputs[0]) then 0 else 1;
    PickTwo(inits, node.inputs, i);
    p := LastIndex(nodes, node.inputs[1 - i]);
    w := IndexOfFirst(inits, nodes[p].inputs);
  }

  /** What the trace finds, spelled out on the graph. */
  lemma TraceMeans(nodes: seq<Node>, inits: map<Name, Tensor>, node: Node, bias: Name, weight: Name)
    ensures Trace(nodes, inits, node) == Some((bias, weight)) <==>
            exists i: nat, p: nat, w: nat :: AddsBias(nodes, inits, node, bias, weight, i, p, w)
  {
    if Trace(nodes, inits, node) == Some((bias, weight)) {
      var i, p, w := TraceFound(nodes, inits, node);
      assert AddsBias(nodes, inits, node, bias, weight, i, p, w);
    }
    if i: nat, p: nat, w: nat :| AddsBias(nodes, inits, node, bias, weight, i, p, w) {
      PickTwo(inits, node.inputs, i);
      LastProducer(nodes, node.inputs[1 - i]);
      FirstIndex(inits, nodes[p].inputs);
      assert forall v :: 0 <= v < w ==> !IsAnonymous(inits, nodes[p].inputs[v]);
    }
  }

  /** The key is the bias name with its ending exchanged. */
  lemma WeightKeyIs(stem: string)
    ensures EndsWith(stem + ".bias", BIAS) && WeightKey(stem + ".bias") == stem + ".weight"
  {
    assert (stem + ".bias")[|stem|..] == ".bias";
  }

  datatype Failure = DuplicateWeightKey | OrphanWeights | SharedWeight | DuplicateOutputKey
  datatype Result = Converted(tensors: map<Name, Tensor>) | Failed(failure: Failure)

  ghost predicate TracedBefore(nodes: seq<Node>, inits: map<Name, Tensor>, n: nat, key: Name, weight: Name)
    requires n <= |nodes|
  {
    exists k :: 0 <= k < n && TracesTo(nodes, inits, k, key, weight)
  }

  predicate Has(m: map<Name, Name>, key: Name, value: Name) {
    key in m && m[key] == value
  }

  /** `linear` pairs output keys with the weights the trace finds at the first `n` nodes. */
  ghost predicate Pairs(nodes: seq<Node>, inits: map<Name, Tensor>, linear: map<Name, Name>, n: nat)
    requires n <= |nodes|
  {
    forall key, weight :: Has(linear, key, weight) <==> TracedBefore(nodes, inits, n, key, weight)
  }

  ghost predicate TracesTo(nodes: seq<Node>, inits: map<Name, Tensor>, k: nat, key: Name, weight: Name)
    requires k < |nodes|
  {
    var t := Trace(nodes, inits, nodes[k]);
    t.Some? && WeightKey(t.value.0) == key && t.value.1 == weight
  }

  ghost predicate TracesTwice(nodes: seq<Node>, inits: map<Name, Tensor>, i: nat, j: nat, key: Name, x: Name, y: Name) {
    i < j < |nodes| && TracesTo(nodes, inits, i, key, x) && TracesTo(nodes, inits, j, key, y)
  }

  /** Two of the first `n` nodes trace to the same key. */
  ghost predicate RepeatedKey(nodes: seq<Node>, inits: map<Name, Tensor>, n: nat) {
    exists i: nat, j: nat, key, x, y :: j < n && TracesTwice(nodes, inits, i, j, key, x, y)
  }

  ghost predicate Injective(m: map<Name, Name>) {
    forall x, y :: x in m && y in m && m[x] == m[y] ==> x == y
  }

  /** A map onto as many values as it has keys is one to one. */
  lemma {:induction false} OntoIsInjective(m: map<Name, Name>)
    ensures |m.Values| <= |m|
    ensures |m.Values| == |m| ==> Injective(m)
    decreases |m|
  {
    if m != map[] {
      var x :| x in m;
      var rest := m - {x};
      assert m == rest[x := m[x]];
      assert m.Values == rest.Values + {m[x]} by {
        forall v ensures v in m.Values <==> v in rest.Values + {m[x]} {
          if v in m.Values && v != m[x] {
            var y :| y in m && m[y] == v;
            assert y in rest;
          }
          if v in rest.Values {
            var y :| y in rest && rest[y] == v;
            assert y in m;
          }
        }
      }
      assert |m| == |rest| + 1 by { assert m.Keys == rest.Keys + {x}; }
      OntoIsInjective(rest);
      if |m.Values| == |m| {
        assert m[x] !in rest.Values;
        forall y, z | y in m && z in m && m[y] == m[z] ensures y == z {
          if y != x { assert y in rest && rest[y] in rest.Values; }
          if z != x { assert z in rest && rest[z] in rest.Values; }
        }
      }
    }
  }

  /** Everything a successful conversion promises. */
  ghost predicate Exact(nodes: seq<Node>, inits: map<Name, Tensor>, tensors: map<Name, Tensor>,
                        linear: map<Name, Name>) {
    && Pairs(nodes, inits, linear, |nodes|)
    && Injective(linear) && linear.Values == Anonymous(inits)
    && linear.Keys !! inits.Keys - Anonymous(inits)
    && tensors.Keys == linear.Keys + (inits.Keys - Anonymous(inits))
    && |tensors| == |inits|
    && (forall key :: key in linear ==> linear[key] in inits && SavesColumns(tensors[key], inits[linear[key]]))
    && (forall name :: name in inits && name !in Anonymous(inits) ==> tensors[name] == inits[name])
  }

  /** First loop: one entry per Linear layer found. */
  method RecoverLinear(nodes: seq<Node>, inits: map<Name, Tensor>)
    returns (tensors: map<Name, Tensor>, ghost linear: map<Name, Name>, consumed: set<Name>, count: nat, ok: bool)
    ensures ok ==> Pairs(nodes, inits, linear, |nodes|) && tensors.Keys == linear.Keys && count == |linear|
    ensures ok ==> consumed == linear.Values <= Anonymous(inits)
    ensures ok ==> forall key :: key in linear ==>
            linear[key] in inits && tensors[key] == Transposed(inits[linear[key]])
    ensures ok <==> !RepeatedKey(nodes, inits, |nodes|)
  {
    hide Pairs, RepeatedKey, Trace, Transposed;
    tensors, linear, consumed, count := map[], map[], {}, 0;
    NothingTraced(nodes, inits);
    for n := 0 to |nodes|
      invariant Pairs(nodes, inits, linear, n) && tensors.Keys == linear.Keys && count == |linear|
      invariant !RepeatedKey(nodes, inits, n)
      invariant consumed == linear.Values <= Anonymous(inits)
      invariant forall key :: key in linear ==> linear[key] in inits && tensors[key] == Transposed(inits[linear[key]])
    {
      PairsSnoc(nodes, inits, linear, n);
      RepeatedSnoc(nodes, inits, linear, n);
      var found := Trace(nodes, inits, nodes[n]);
      if found.Some? {
        var (bias, weight) := found.value;
        var key := WeightKey(bias);
        if key in tensors {
          RepeatedStays(nodes, inits, n + 1);
          ok := false;
          return;
        }
        ValuesSnoc(linear, key, weight);
        tensors := tensors[key := Transposed(inits[weight])];
        linear := linear[key := weight];
        consumed := consumed + {weight};
        count := count + 1;
      }
    }
    ok := true;
  }

  lemma NothingTraced(nodes: seq<Node>, inits: map<Name, Tensor>)
    ensures Pairs(nodes, inits, map[], 0) && !RepeatedKey(nodes, inits, 0)
  {
  }

  lemma RepeatedStays(nodes: seq<Node>, inits: map<Name, Tensor>, n: nat)
    requires n <= |nodes| && RepeatedKey(nodes, inits, n)
    ensures RepeatedKey(nodes, inits, |nodes|)
  {
  }

  /** The next node repeats a key exactly when its key has been recovered before. */
  lemma RepeatedSnoc(nodes: seq<Node>, inits: map<Name, Tensor>, linear: map<Name, Name>, n: nat)
    requires n < |nodes| && Pairs(nodes, inits, linear, n) && !RepeatedKey(nodes, inits, n)
    ensures var t := Trace(nodes, inits, nodes[n]);
            RepeatedKey(nodes, inits, n + 1) <==> t.Some? && WeightKey(t.value.0) in linear
  {
    hide Trace;
    var t := Trace(nodes, inits, nodes[n]);
    if t.Some? && WeightKey(t.value.0) in linear {
      var key := WeightKey(t.value.0);
      assert Has(linear, key, linear[key]);
      var i :| 0 <= i < n && TracesTo(nodes, inits, i, key, linear[key]);
      assert TracesTwice(nodes, inits, i, n, key, linear[key], t.value.1);
    }
    if RepeatedKey(nodes, inits, n + 1) {
      var i: nat, j: nat, key, x, y :| j < n + 1 && TracesTwice(nodes, inits, i, j, key, x, y);
      assert j == n;
      assert TracedBefore(nodes, inits, n, key, x);
      assert Has(linear, key, x);
    }
  }

  lemma ValuesSnoc(m: map<Name, Name>, key: Name, value: Name)
    requires key !in m
    ensures m[key := value].Values == m.Values + {value} && |m[key := value]| == |m| + 1
  {
    var more := m[key := value];
    forall v ensures v in more.Values <==> v in m.Values + {value} {
      if v in m.Values {
        var k :| k in m && m[k] == v;
        assert more[k] == v;
      }
      if v == value { assert more[key] == v; }
    }
    assert more.Keys == m.Keys + {key};
  }

  lemma TracedSnoc(nodes: seq<Node>, inits: map<Name, Tensor>, n: nat, key: Name, weight: Name)
    requires n < |nodes|
    ensures TracedBefore(nodes, inits, n + 1, key, weight) <==>
            TracedBefore(nodes, inits, n, key, weight) || TracesTo(nodes, inits, n, key, weight)
  {
  }

  lemma PairsSnoc(nodes: seq<Node>, inits: map<Name, Tensor>, linear: map<Name, Name>, n: nat)
    requires n < |nodes| && Pairs(nodes, inits, linear, n)
    ensures var t := Trace(nodes, inits, nodes[n]);
            && (t.None? ==> Pairs(nodes, inits, linear, n + 1))
            && (t.Some? && WeightKey(t.value.0) !in linear ==>
                  Pairs(nodes, inits, linear[WeightKey(t.value.0) := t.value.1], n + 1))
  {
    hide Trace;
    hide TracedBefore;
    var t := Trace(nodes, inits, nodes[n]);
    var after := if t.Some? then linear[WeightKey(t.value.0) := t.value.1] else linear;
    if t.None? || WeightKey(t.value.0) !in linear {
      forall key, weight
        ensures Has(after, key, weight) <==> TracedBefore(nodes, inits, n + 1, key, weight)
      {
        TracedSnoc(nodes, inits, n, key, weight);
        assert Has(linear, key, weight) <==> TracedBefore(nodes, inits, n, key, weight);
      }
    }
  }

  ghost predicate Traced(nodes: seq<Node>, inits: map<Name, Tensor>, key: Name, weight: Name) {
    TracedBefore(nodes, inits, |nodes|, key, weight)
  }

  /** What a graph must look like to pass every check: no key found twice, no weight left
      over, no weight found under two keys, no key that is also a named initializer. */
  ghost predicate Convertible(nodes: seq<Node>, inits: map<Name, Tensor>) {
    && !RepeatedKey(nodes, inits, |nodes|)
    && (forall weight :: weight in Anonymous(inits) ==> exists key :: Traced(nodes, inits, key, weight))
    && (forall x, y, weight :: Traced(nodes, inits, x, weight) && Traced(nodes, inits, y, weight) ==> x == y)
    && (forall key, weight :: Traced(nodes, inits, key, weight) ==> key !in inits.Keys - Anonymous(inits))
  }

  lemma InjectiveIsOnto(m: map<Name, Name>)
    requires Injective(m)
    ensures |m.Values| == |m|
    decreases |m|
  {
    if m != map[] {
      var x :| x in m;
      var rest := m - {x};
      assert m == rest[x := m[x]];
      ValuesSnoc(rest, x, m[x]);
      InjectiveIsOnto(rest);
      assert m[x] !in rest.Values;
    }
  }

  /** Second loop: copy every named initializer under its own name. */
  method CopyNamed(inits: map<Name, Tensor>, recovered: map<Name, Tensor>)
    returns (tensors: map<Name, Tensor>, ok: bool)
    ensures ok <==> recovered.Keys !! inits.Keys - Anonymous(inits)
    ensures ok ==> tensors == recovered + (inits - Anonymous(inits))
  {
    tensors, ok := recovered, true;
    var remaining, done := inits.Keys, {};
    while remaining != {}
      invariant done !! remaining && done + remaining == inits.Keys
      invariant recovered.Keys !! done - Anonymous(inits)
      invariant tensors == recovered + map name | name in done && name !in Anonymous(inits) :: inits[name]
      decreases remaining
    {
      var name :| name in remaining;
      remaining, done := remaining - {name}, done + {name};
      if !(ANONYMOUS <= name) {
        if name in tensors {
          assert name in recovered;
          ok := false;
          return;
        }
        tensors := tensors[name := inits[name]];
      }
    }
    assert inits - Anonymous(inits) == map name | name in done && name !in Anonymous(inits) :: inits[name];
  }

  lemma ExactCounts(inits: map<Name, Tensor>, tensors: map<Name, Tensor>, linear: map<Name, Name>)
    requires linear.Keys !! inits.Keys - Anonymous(inits)
             && tensors.Keys == linear.Keys + (inits.Keys - Anonymous(inits))
    requires |linear| == |Anonymous(inits)|
    ensures |tensors| == |inits|
  {
    assert inits.Keys == Anonymous(inits) + (inits.Keys - Anonymous(inits));
    assert |inits.Keys| == |Anonymous(inits)| + |inits.Keys - Anonymous(inits)|;
    assert |tensors.Keys| == |linear.Keys| + |inits.Keys - Anonymous(inits)|;
  }

  /** The checks, in terms of the pairing, decide convertibility. */
  lemma ChecksDecide(nodes: seq<Node>, inits: map<Name, Tensor>, linear: map<Name, Name>)
    requires !RepeatedKey(nodes, inits, |nodes|) && Pairs(nodes, inits, linear, |nodes|)
    ensures Convertible(nodes, inits) <==>
            Anonymous(inits) <= linear.Values && Injective(linear) && linear.Keys !! inits.Keys - Anonymous(inits)
  {
    hide TracedBefore, Anonymous;
    assert forall key, weight :: Traced(nodes, inits, key, weight) <==> Has(linear, key, weight);
    forall weight ensures weight in linear.Values <==> exists key :: Has(linear, key, weight) {
      if weight in linear.Values {
        var key :| key in linear && linear[key] == weight;
        assert Has(linear, key, weight);
      }
      if key :| Has(linear, key, weight) {
        assert linear[key] in linear.Values;
      }
    }
    assert (forall x, y, weight :: Traced(nodes, inits, x, weight) && Traced(nodes, inits, y, weight) ==> x == y) ==>
           Injective(linear) by {
      if forall x, y, weight :: Traced(nodes, inits, x, weight) && Traced(nodes, inits, y, weight) ==> x == y {
        forall x, y | x in linear && y in linear && linear[x] == linear[y] ensures x == y {
          assert Traced(nodes, inits, x, linear[x]) && Traced(nodes, inits, y, linear[x]);
        }
      }
    }
    assert (forall key, weight :: Traced(nodes, inits, key, weight) ==> key !in inits.Keys - Anonymous(inits)) ==>
           linear.Keys !! inits.Keys - Anonymous(inits) by {
      forall key | key in linear ensures Traced(nodes, inits, key, linear[key]) {
        assert Has(linear, key, linear[key]);
      }
    }
  }

  /** The whole conversion with its early failures. It succeeds on exactly the convertible
      graphs, and then keys and anonymous weights are in bijection, recovered and copied
      names are disjoint, and there are as many tensors as initializers. */
  method ConvertEncoder(nodes: seq<Node>, inits: map<Name, Tensor>) returns (result: Result)
    ensures result.Converted? <==> Convertible(nodes, inits)
    ensures result.Converted? ==> exists linear :: Exact(nodes, inits, result.tensors, linear)
  {
    hide Pairs, Convertible, Anonymous, RepeatedKey, Injective, Transposed;
    var recovered, linear, consumed, count, ok := RecoverLinear(nodes, inits);
    if !ok {
      assert !Convertible(nodes, inits) by { RepeatedKeyFails(nodes, inits); }
      return Failed(DuplicateWeightKey);
    }
    ChecksDecide(nodes, inits, linear);
    var anonymous := Anonymous(inits);
    if !(anonymous <= consumed) {
      return Failed(OrphanWeights);
    }
    OntoIsInjective(linear);
    if |consumed| != count {
      if Injective(linear) { InjectiveIsOnto(linear); }
      return Failed(SharedWeight);
    }
    var tensors, copied := CopyNamed(inits, recovered);
    if !copied {
      return Failed(DuplicateOutputKey);
    }
    assert consumed == anonymous;
    ExactCounts(inits, tensors, linear);
    ExactHolds(nodes, inits, recovered, tensors, linear);
    result := Converted(tensors);
  }

  lemma Overlaid(recovered: map<Name, Tensor>, inits: map<Name, Tensor>, anonymous: set<Name>)
    requires recovered.Keys !! inits.Keys - anonymous
    ensures var tensors := recovered + (inits - anonymous);
            && tensors.Keys == recovered.Keys + (inits.Keys - anonymous)
            && (forall key :: key in recovered ==> tensors[key] == recovered[key])
            && forall name :: name in inits && name !in anonymous ==> tensors[name] == inits[name]
  {
    var named := inits - anonymous;
    assert named.Keys == inits.Keys - anonymous;
    forall key | key in recovered ensures key !in named { assert key !in named.Keys; }
  }

  lemma ExactHolds(nodes: seq<Node>, inits: map<Name, Tensor>, recovered: map<Name, Tensor>,
                   tensors: map<Name, Tensor>, linear: map<Name, Name>)
    requires Pairs(nodes, inits, linear, |nodes|) && Injective(linear) && linear.Values == Anonymous(inits)
    requires recovered.Keys == linear.Keys && linear.Keys !! inits.Keys - Anonymous(inits)
    requires forall key :: key in linear ==> linear[key] in inits && recovered[key] == Transposed(inits[linear[key]])
    requires tensors == recovered + (inits - Anonymous(inits)) && |tensors| == |inits|
    ensures Exact(nodes, inits, tensors, linear)
  {
    Overlaid(recovered, inits, Anonymous(inits));
    hide Pairs, Injective, Anonymous, Transposed, SavesColumns, Exact;
    forall key | key in linear ensures key in tensors && SavesColumns(tensors[key], inits[linear[key]]) {
      assert key in recovered;
      TransposedSaves(inits[linear[key]]);
    }
    IsExact(nodes, inits, tensors, linear);
  }

  lemma IsExact(nodes: seq<Node>, inits: map<Name, Tensor>, tensors: map<Name, Tensor>, linear: map<Name, Name>)
    requires Pairs(nodes, inits, linear, |nodes|) && Injective(linear) && linear.Values == Anonymous(inits)
    requires linear.Keys !! inits.Keys - Anonymous(inits)
    requires tensors.Keys == linear.Keys + (inits.Keys - Anonymous(inits)) && |tensors| == |inits|
    requires forall key :: key in linear ==>
               linear[key] in inits && key in tensors && SavesColumns(tensors[key], inits[linear[key]])
    requires forall name :: name in inits && name !in Anonymous(inits) ==>
             name in tensors && tensors[name] == inits[name]
    ensures Exact(nodes, inits, tensors, linear)
  {
    hide Pairs, Injective, Anonymous, SavesColumns;
  }

  lemma RepeatedKeyFails(nodes: seq<Node>, inits: map<Name, Tensor>)
    ensures Convertible(nodes, inits) ==> !RepeatedKey(nodes, inits, |nodes|)
  {
  }
}
