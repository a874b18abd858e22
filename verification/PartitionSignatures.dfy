/** vllm/vllm/env_override.py, `get_graph_partition_signature_patched`: a backward pass that decides
    which buffers every partition of a graph takes, returns and frees. Names stand for buffers; the
    order within a set of names is not modelled. */
module PartitionSignatures {
  import opened Common

  type Name = string

  datatype Node = Node(outputs: set<Name>, readNames: set<Name>, writeNames: set<Name>, lastUsage: set<Name>)

  type Partition = seq<Node>

  /** What the pass looks up: the graph's output names, the names that have a node, the constants, the
      buffers without a layout, and the real buffers behind mutated names. */
  datatype Graph = Graph(outputs: set<Name>, nodes: set<Name>, constants: set<Name>,
                         noneLayout: set<Name>, realName: map<Name, Name>)

  datatype Signature = Signature(inputs: set<Name>, outputs: set<Name>, deallocation: map<Name, bool>,
                                 skipCudagraph: bool, constants: set<Name>)

  function Outputs(p: Partition): (r: set<Name>) {
    if p == [] then {} else Outputs(p[..|p| - 1]) + p[|p| - 1].outputs
  }

  /** Names read or written. */
  function Accesses(p: Partition): (r: set<Name>) {
    if p == [] then {} else Accesses(p[..|p| - 1]) + p[|p| - 1].readNames + p[|p| - 1].writeNames
  }

  /** Names that one of the nodes is the last to use. */
  function Frees(p: Partition): (r: set<Name>) {
    if p == [] then {} else Frees(p[..|p| - 1]) + p[|p| - 1].lastUsage
  }

  function RealName(g: Graph, name: Name): Name {
    if name in g.realName then g.realName[name] else name
  }

  function RealNames(g: Graph, names: set<Name>): (r: set<Name>) {
    set name | name in names :: RealName(g, name)
  }

  /** Everything a partition needs from outside: what it accesses and does not make itself, and what
      it frees. */
  function InputNames(g: Graph, p: Partition): (r: set<Name>) {
    RealNames(g, Accesses(p) - g.noneLayout - Outputs(p)) + (Frees(p) - Outputs(p)) * g.nodes
  }

  /** What it returns: outputs that are still unmet, and inputs that it does not free. */
  function ReturnedNames(g: Graph, p: Partition, unmet: set<Name>): (r: set<Name>) {
    RealNames(g, Outputs(p) * unmet + (InputNames(g, p) * g.nodes - Frees(p)))
  }

  function SignatureOf(g: Graph, p: Partition, skip: bool, unmet: set<Name>): (r: Signature) {
    var inputs := InputNames(g, p) * g.nodes;
    Signature(inputs, ReturnedNames(g, p, unmet) - g.noneLayout, map name | name in inputs :: name in Frees(p),
              skip, InputNames(g, p) * g.constants)
  }

  /** What is unmet before the partition, given what is unmet after it. */
  function UnmetBefore(g: Graph, p: Partition, unmet: set<Name>): (r: set<Name>) {
    InputNames(g, p) + (unmet - ReturnedNames(g, p, unmet))
  }

  /** What is unmet before the first of `ps`. */
  function Unmet(g: Graph, ps: seq<Partition>): (r: set<Name>) {
    if ps == [] then g.outputs else UnmetBefore(g, ps[0], Unmet(g, ps[1..]))
  }

  /** A returned name without a node is a failed lookup. */
  predicate LookupFails(g: Graph, p: Partition, unmet: set<Name>) {
    !(ReturnedNames(g, p, unmet) - g.noneLayout <= g.nodes)
  }

  /** The signatures of `ps`, in order, unless a lookup fails. */
  function Signatures(g: Graph, ps: seq<Partition>, skips: seq<bool>): (r: Option<seq<Signature>>)
    requires |ps| == |skips|
    ensures r.Some? ==> |r.value| == |ps|
  {
    if ps == [] then Some([])
    else
      var rest := Signatures(g, ps[1..], skips[1..]);
      var unmet := Unmet(g, ps[1..]);
      if rest.None? || LookupFails(g, ps[0], unmet) then None
      else Some([SignatureOf(g, ps[0], skips[0], unmet)] + rest.value)
  }

  lemma {:induction false} FailureSpreads(g: Graph, ps: seq<Partition>, skips: seq<bool>, k: nat)
    requires |ps| == |skips| && k <= |ps| && Signatures(g, ps[k..], skips[k..]).None?
    ensures Signatures(g, ps, skips).None?
    decreases |ps|
  {
    if k == 0 {
      assert ps[0..] == ps && skips[0..] == skips;
    } else {
      assert ps[1..][k - 1..] == ps[k..] && skips[1..][k - 1..] == skips[k..];
      FailureSpreads(g, ps[1..], skips[1..], k - 1);
    }
  }

  /** Partition `k` gets the signature that belongs to it, to its skip flag, and to what is unmet after it. */
  lemma {:induction false} SignatureAt(g: Graph, ps: seq<Partition>, skips: seq<bool>, k: nat)
    requires |ps| == |skips| && Signatures(g, ps, skips).Some? && k < |ps|
    ensures Signatures(g, ps, skips).value[k] == SignatureOf(g, ps[k], skips[k], Unmet(g, ps[k + 1..]))
    ensures !LookupFails(g, ps[k], Unmet(g, ps[k + 1..]))
    decreases |ps|
  {
    if k > 0 {
      SignatureAt(g, ps[1..], skips[1..], k - 1);
      assert ps[1..][k..] == ps[k + 1..];
    }
  }

  /** The last `m` elements, which is what a zip of two reversed lists looks at. */
  function Last<T>(s: seq<T>, m: nat): (r: seq<T>)
    requires m <= |s|
    ensures |r| == m
  {
    s[|s| - m..]
  }

  function Reversed<T>(s: seq<T>): (r: seq<T>)
    ensures |r| == |s|
  {
    if s == [] then [] else [s[|s| - 1]] + Reversed(s[..|s| - 1])
  }

  method CollectNames(p: Partition) returns (outputs: set<Name>, accesses: set<Name>, frees: set<Name>)
    ensures outputs == Outputs(p) && accesses == Accesses(p) && frees == Frees(p)
  {
    outputs, accesses, frees := {}, {}, {};
    for i := 0 to |p|
      invariant outputs == Outputs(p[..i]) && accesses == Accesses(p[..i]) && frees == Frees(p[..i])
    {
      var node := p[i];
      assert p[..i + 1][..i] == p[..i];
      outputs := outputs + node.outputs;
      accesses := accesses + node.readNames + node.writeNames;
      frees := frees + node.lastUsage;
    }
    assert p[..|p|] == p;
  }

  /** The body of the loop: the signature of one partition, and what is unmet before it. */
  method OnePartition(g: Graph, partition: Partition, skip: bool, unmetOutputNames: set<Name>)
    returns (signature: Option<Signature>, unmet: set<Name>)
    ensures signature.None? <==> LookupFails(g, partition, unmetOutputNames)
    ensures signature.Some? ==> signature.value == SignatureOf(g, partition, skip, unmetOutputNames)
    ensures unmet == UnmetBefore(g, partition, unmetOutputNames)
  {
    var outputNames, accesses, bufferNamesToFree := CollectNames(partition);
    var returned := outputNames * unmetOutputNames;
    var inputNames := RealNames(g, accesses - g.noneLayout - outputNames);
    inputNames := inputNames + (bufferNamesToFree - outputNames) * g.nodes;
    var inputNodes := inputNames * g.nodes;
    var deallocation := map name | name in inputNodes :: name in bufferNamesToFree;
    returned := RealNames(g, returned + (inputNodes - bufferNamesToFree));
    unmet := inputNames + (unmetOutputNames - returned);
    if returned - g.noneLayout <= g.nodes {
      signature :=
        Some(Signature(inputNodes, returned - g.noneLayout, deallocation, skip, inputNames * g.constants));
    } else {
      signature := None;
    }
  }

  /** The pass. The signatures come out in the order of the partitions. */
  method GetSignatures(g: Graph, partitions: seq<Partition>, skips: seq<bool>) returns (r: Option<seq<Signature>>)
    ensures var m := Min(|partitions|, |skips|);
            r == Signatures(g, Last(partitions, m), Last(skips, m))
  {
    var m := Min(|partitions|, |skips|);
    var signatures := [];
    var unmetOutputNames := g.outputs;
    for n := 0 to m
      invariant unmetOutputNames == Unmet(g, Last(partitions, n))
      invariant Some(Reversed(signatures)) == Signatures(g, Last(partitions, n), Last(skips, n))
    {
      var partition, skip := partitions[|partitions| - 1 - n], skips[|skips| - 1 - n];
      LastGrows(partitions, n);
      LastGrows(skips, n);
      var signature, unmet := OnePartition(g, partition, skip, unmetOutputNames);
      if signature == None {
        LastOfLast(partitions, m, n + 1);
        LastOfLast(skips, m, n + 1);
        FailureSpreads(g, Last(partitions, m), Last(skips, m), m - n - 1);
        return None;
      }
      ReversedGrows(signatures, signature.value);
      signatures := signatures + [signature.value];
      unmetOutputNames := unmet;
    }
    r := Some(Reversed(signatures));
  }

  lemma LastGrows<T>(s: seq<T>, n: nat)
    requires n < |s|
    ensures Last(s, n + 1)[0] == s[|s| - 1 - n] && Last(s, n + 1)[1..] == Last(s, n)
  {
  }

  lemma ReversedGrows<T>(s: seq<T>, x: T)
    ensures Reversed(s + [x]) == [x] + Reversed(s)
  {
    assert (s + [x])[..|s|] == s;
  }

  lemma LastOfLast<T>(s: seq<T>, m: nat, n: nat)
    requires n <= m <= |s|
    ensures Last(s, m)[m - n..] == Last(s, n)
  {
  }

  // ---- the signature, name by name ---------------------------------------------------------------

  lemma {:induction false} NamesOf(p: Partition, name: Name)
    ensures name in Outputs(p) <==> exists k :: 0 <= k < |p| && name in p[k].outputs
    ensures name in Accesses(p) <==> exists k :: 0 <= k < |p| && (name in p[k].readNames || name in p[k].writeNames)
    ensures name in Frees(p) <==> exists k :: 0 <= k < |p| && name in p[k].lastUsage
  {
    if p != [] {
      var n := |p| - 1;
      NamesOf(p[..n], name);
      assert p == p[..n] + [p[n]];
    }
  }

  /** No node of the partition makes the name. */
  ghost predicate NotMade(p: Partition, name: Name) {
    forall k :: 0 <= k < |p| ==> name !in p[k].outputs
  }

  /** A node reads or writes `x`, none makes it, it has a layout, and `name` is the real buffer behind it. */
  ghost predicate AccessedAs(g: Graph, p: Partition, x: Name, name: Name) {
    && x !in g.noneLayout && NotMade(p, x) && name == (if x in g.realName then g.realName[x] else x)
    && exists k :: 0 <= k < |p| && (x in p[k].readNames || x in p[k].writeNames)
  }

  /** A node is the last to use the name, and none makes it. */
  ghost predicate FreedFromOutside(p: Partition, name: Name) {
    NotMade(p, name) && exists k :: 0 <= k < |p| && name in p[k].lastUsage
  }

  lemma InputNamesIff(g: Graph, p: Partition, name: Name)
    ensures name in InputNames(g, p) <==>
              (exists x :: AccessedAs(g, p, x, name)) || (name in g.nodes && FreedFromOutside(p, name))
  {
    NamesOf(p, name);
    forall x
      ensures AccessedAs(g, p, x, name) <==> x in Accesses(p) - g.noneLayout - Outputs(p) && RealName(g, x) == name
    {
      NamesOf(p, x);
    }
  }

  /** An input is a name with a node that some node of the partition accesses or frees and that none
      makes. It is deallocated exactly if some node frees it. The constants among what is accessed are
      listed apart. */
  lemma InputsIff(g: Graph, p: Partition, skip: bool, unmet: set<Name>, name: Name)
    ensures var sig := SignatureOf(g, p, skip, unmet);
            && (name in sig.inputs <==>
                  name in g.nodes && ((exists x :: AccessedAs(g, p, x, name)) || FreedFromOutside(p, name)))
            && (name in sig.deallocation <==> name in sig.inputs)
            && (name in sig.inputs ==>
                  (sig.deallocation[name] <==> exists k :: 0 <= k < |p| && name in p[k].lastUsage))
            && (name in sig.constants <==>
                  && name in g.constants
                  && ((exists x :: AccessedAs(g, p, x, name)) || (name in g.nodes && FreedFromOutside(p, name))))
            && sig.skipCudagraph == skip
  {
    InputNamesIff(g, p, name);
    NamesOf(p, name);
  }

  /** `x` is handed back: a node makes it and it is still unmet, or it is an input that no node frees. */
  ghost predicate HandedBack(g: Graph, p: Partition, skip: bool, unmet: set<Name>, x: Name) {
    || (x in unmet && exists k :: 0 <= k < |p| && x in p[k].outputs)
    || (x in SignatureOf(g, p, skip, unmet).inputs && forall k :: 0 <= k < |p| ==> x !in p[k].lastUsage)
  }

  ghost predicate HandedBackAs(g: Graph, p: Partition, skip: bool, unmet: set<Name>, x: Name, name: Name) {
    HandedBack(g, p, skip, unmet, x) && name == (if x in g.realName then g.realName[x] else x)
  }

  /** The outputs are the real buffers behind what is handed back, as far as they have a layout. A lookup
      fails for one that has a layout and no node. */
  lemma OutputsIff(g: Graph, p: Partition, skip: bool, unmet: set<Name>, name: Name)
    ensures name in SignatureOf(g, p, skip, unmet).outputs <==>
              name !in g.noneLayout && exists x :: HandedBackAs(g, p, skip, unmet, x, name)
    ensures LookupFails(g, p, unmet) <==>
              exists n :: n in SignatureOf(g, p, skip, unmet).outputs && n !in g.nodes
  {
    forall x
      ensures HandedBackAs(g, p, skip, unmet, x, name) <==>
                x in Outputs(p) * unmet + (InputNames(g, p) * g.nodes - Frees(p)) && RealName(g, x) == name
    {
      NamesOf(p, x);
    }
  }

  /** Unmet before the partition is what it needs from outside, and what was unmet after it and is not
      handed back by it. */
  lemma UnmetIff(g: Graph, p: Partition, skip: bool, unmet: set<Name>, name: Name)
    ensures name in UnmetBefore(g, p, unmet) <==>
              || (exists x :: AccessedAs(g, p, x, name))
              || (name in g.nodes && FreedFromOutside(p, name))
              || (name in unmet && forall x :: !HandedBackAs(g, p, skip, unmet, x, name))
  {
    InputNamesIff(g, p, name);
    forall x
      ensures HandedBackAs(g, p, skip, unmet, x, name) <==>
                x in Outputs(p) * unmet + (InputNames(g, p) * g.nodes - Frees(p)) && RealName(g, x) == name
    {
      NamesOf(p, x);
    }
  }

  // ---- running the partitions --------------------------------------------------------------------

  /** The buffers held after the first `n` nodes, starting from `held`. A node cannot run without what
      it reads and writes: it must be held, be one of the constants, have no layout, or be made by the
      node itself. Nor can it free a buffer that is not held. */
  function RunNodes(g: Graph, p: Partition, n: nat, held: set<Name>, constants: set<Name>): (r: Option<set<Name>>)
    requires n <= |p|
  {
    if n == 0 then Some(held)
    else match RunNodes(g, p, n - 1, held, constants)
         case None => None
         case Some(h) =>
           var node := p[n - 1];
           var made := h + node.outputs;
           if node.readNames + node.writeNames <= made + constants + g.noneLayout && node.lastUsage * g.nodes <= made
           then Some(made - node.lastUsage)
           else None
  }

  /** What the signature says about deallocation is what became of the inputs. */
  predicate DeallocatesAs(sig: Signature, held: set<Name>) {
    forall name :: name in sig.inputs ==> name in sig.deallocation && (sig.deallocation[name] <==> name !in held)
  }

  /** The buffers at hand after the partition has run, starting from `env`: it is handed its inputs and
      constants, its nodes run, and it hands back what it returns. It cannot run without its inputs, nor
      hand back what it does not hold in the end. */
  function RunOne(g: Graph, p: Partition, sig: Signature, env: set<Name>): (r: Option<set<Name>>) {
    match RunNodes(g, p, |p|, sig.inputs, sig.constants)
    case None => None
    case Some(held) =>
      if sig.inputs <= env && sig.outputs <= held && DeallocatesAs(sig, held)
      then Some(env - sig.inputs + sig.outputs)
      else None
  }

  function RunAll(g: Graph, ps: seq<Partition>, sigs: seq<Signature>, env: set<Name>): (r: Option<set<Name>>)
    requires |ps| == |sigs|
  {
    if ps == [] then Some(env)
    else match RunOne(g, ps[0], sigs[0], env)
         case None => None
         case Some(env') => RunAll(g, ps[1..], sigs[1..], env')
  }

  /** All partitions run, and the graph's outputs are at hand in the end. */
  predicate Completes(g: Graph, ps: seq<Partition>, sigs: seq<Signature>, env: set<Name>)
    requires |ps| == |sigs|
  {
    match RunAll(g, ps, sigs, env)
    case None => false
    case Some(env') => g.outputs <= env'
  }

  /** Names that one of the partitions takes from outside. */
  function Uses(g: Graph, ps: seq<Partition>): (r: set<Name>) {
    if ps == [] then {} else InputNames(g, ps[0]) + Uses(g, ps[1..])
  }

  /** What a partition frees is neither a graph output nor used by a later partition. */
  predicate SoundFrees(g: Graph, ps: seq<Partition>) {
    ps == [] || (Frees(ps[0]) !! g.outputs + Uses(g, ps[1..]) + g.noneLayout && SoundFrees(g, ps[1..]))
  }

  /** Node `k` comes in its turn: what it accesses or frees is made before it or by it, or not by the
      partition at all, and has not been freed yet; nor has what it makes. What it accesses is a known
      buffer: the partition makes it, or it has a node, is a constant or has no layout. */
  predicate InTurn(g: Graph, p: Partition, k: nat)
    requires k < |p|
  {
    var node := p[k];
    && (forall x :: x in node.readNames + node.writeNames + node.lastUsage ==>
          x in Outputs(p[..k + 1]) || x !in Outputs(p))
    && (forall x :: x in node.readNames + node.writeNames + node.lastUsage + node.outputs ==> x !in Frees(p[..k]))
    && (forall x :: x in node.readNames + node.writeNames ==>
          x in Outputs(p) + g.nodes + g.constants + g.noneLayout)
  }

  predicate AllInTurn(g: Graph, ps: seq<Partition>) {
    forall p, k :: p in ps && 0 <= k < |p| ==> InTurn(g, p, k)
  }

  /** No buffers renamed by mutation; graph outputs are buffers with a layout. */
  predicate Plain(g: Graph) {
    g.realName == map[] && g.outputs <= g.nodes && g.outputs !! g.noneLayout
  }

  lemma PlainNames(g: Graph, names: set<Name>)
    requires Plain(g)
    ensures RealNames(g, names) == names
  {
    assert forall name :: name in names ==> RealName(g, name) in RealNames(g, names);
  }

  lemma {:induction false} UnmetIsUsed(g: Graph, ps: seq<Partition>)
    requires Plain(g) && SoundFrees(g, ps)
    ensures Unmet(g, ps) <= g.outputs + Uses(g, ps) && Unmet(g, ps) !! g.noneLayout
  {
    if ps != [] {
      UnmetIsUsed(g, ps[1..]);
      PlainNames(g, Accesses(ps[0]) - g.noneLayout - Outputs(ps[0]));
    }
  }

  /** Where every output of a node is a name with a node, or has no layout, no lookup fails. */
  lemma {:induction false} LookupsSucceed(g: Graph, ps: seq<Partition>, skips: seq<bool>)
    requires Plain(g) && |ps| == |skips|
    requires forall p :: p in ps ==> Outputs(p) <= g.nodes + g.noneLayout
    ensures Signatures(g, ps, skips).Some?
    decreases |ps|
  {
    if ps != [] {
      LookupsSucceed(g, ps[1..], skips[1..]);
      var p, unmet := ps[0], Unmet(g, ps[1..]);
      PlainNames(g, Outputs(p) * unmet + (InputNames(g, p) * g.nodes - Frees(p)));
    }
  }

  lemma {:induction false} NodesRun(g: Graph, p: Partition, n: nat, inputs: set<Name>, constants: set<Name>)
    requires n <= |p| && forall k :: 0 <= k < n ==> InTurn(g, p, k)
    requires inputs == InputNames(g, p) * g.nodes && constants == InputNames(g, p) * g.constants
    requires Plain(g)
    ensures RunNodes(g, p, n, inputs, constants) == Some(inputs + Outputs(p[..n]) - Frees(p[..n]))
  {
    if n == 0 {
      assert inputs + {} - {} == inputs;
    } else {
      NodesRun(g, p, n - 1, inputs, constants);
      assert p[..n][..n - 1] == p[..n - 1] && p[..n][n - 1] == p[n - 1];
      NodeRuns(g, p, n - 1, inputs, constants);
    }
  }

  lemma NodeRuns(g: Graph, p: Partition, k: nat, inputs: set<Name>, constants: set<Name>)
    requires k < |p| && InTurn(g, p, k) && Plain(g)
    requires inputs == InputNames(g, p) * g.nodes && constants == InputNames(g, p) * g.constants
    ensures var node := p[k]; var made := inputs + Outputs(p[..k]) - Frees(p[..k]) + node.outputs;
            && node.readNames + node.writeNames <= made + constants + g.noneLayout
            && node.lastUsage * g.nodes <= made
            && made - node.lastUsage == inputs + Outputs(p[..k + 1]) - Frees(p[..k + 1])
  {
    assert p[..k + 1][..k] == p[..k];
    PlainNames(g, Accesses(p) - g.noneLayout - Outputs(p));
    forall x | x in p[k].readNames + p[k].writeNames + p[k].lastUsage
      ensures x in p[k].lastUsage ==> x in Frees(p)
      ensures x in p[k].readNames + p[k].writeNames ==> x in Accesses(p)
    {
      NamesOf(p, x);
    }
  }

  /** One partition, in a run that has everything unmet before it. */
  lemma RunOneSucceeds(g: Graph, p: Partition, skip: bool, unmet: set<Name>, env: set<Name>)
    requires Plain(g) && Frees(p) !! unmet && Frees(p) !! g.noneLayout && unmet !! g.noneLayout
    requires forall k :: 0 <= k < |p| ==> InTurn(g, p, k)
    requires UnmetBefore(g, p, unmet) * g.nodes <= env
    ensures var r := RunOne(g, p, SignatureOf(g, p, skip, unmet), env);
            r.Some? && unmet * g.nodes <= r.value
  {
    PlainNames(g, Outputs(p) * unmet + (InputNames(g, p) * g.nodes - Frees(p)));
    PlainNames(g, Accesses(p) - g.noneLayout - Outputs(p));
    var sig := SignatureOf(g, p, skip, unmet);
    NodesRun(g, p, |p|, sig.inputs, sig.constants);
    assert p[..|p|] == p;
    InputsAreNotMade(g, p);
  }

  lemma InputsAreNotMade(g: Graph, p: Partition)
    requires Plain(g)
    ensures InputNames(g, p) !! Outputs(p)
  {
    PlainNames(g, Accesses(p) - g.noneLayout - Outputs(p));
  }

  /** One partition, in a run that goes on to have everything unmet after it. */
  lemma RunOneNeeds(g: Graph, p: Partition, skip: bool, unmet: set<Name>, env: set<Name>)
    requires RunOne(g, p, SignatureOf(g, p, skip, unmet), env).Some?
    requires unmet * g.nodes <= RunOne(g, p, SignatureOf(g, p, skip, unmet), env).value
    ensures UnmetBefore(g, p, unmet) * g.nodes <= env
  {
    var sig := SignatureOf(g, p, skip, unmet);
    assert sig.inputs == InputNames(g, p) * g.nodes && sig.inputs <= env;
    forall name | name in unmet - ReturnedNames(g, p, unmet) && name in g.nodes
      ensures name in env
    {
      assert name in unmet * g.nodes && name !in sig.outputs;
    }
  }

  /** The signatures preserve availability: with sound frees, the partitions run to the end and leave
      the graph's outputs exactly when what is unmet before the first of them is supplied. */
  lemma {:induction false} CompletesIffSupplied(g: Graph, ps: seq<Partition>, skips: seq<bool>, env: set<Name>)
    requires Plain(g) && AllInTurn(g, ps) && SoundFrees(g, ps)
    requires |ps| == |skips| && Signatures(g, ps, skips).Some?
    ensures Completes(g, ps, Signatures(g, ps, skips).value, env) <==> Unmet(g, ps) * g.nodes <= env
    decreases |ps|
  {
    if ps == [] {
      assert g.outputs * g.nodes == g.outputs;
    } else {
      var rest, unmet := Signatures(g, ps[1..], skips[1..]).value, Unmet(g, ps[1..]);
      var sig := SignatureOf(g, ps[0], skips[0], unmet);
      var sigs := Signatures(g, ps, skips).value;
      assert sigs[0] == sig && sigs[1..] == rest;
      UnmetIsUsed(g, ps[1..]);
      match RunOne(g, ps[0], sig, env)
      case None =>
        if Unmet(g, ps) * g.nodes <= env {
          RunOneSucceeds(g, ps[0], skips[0], unmet, env);
        }
      case Some(env') =>
        CompletesIffSupplied(g, ps[1..], skips[1..], env');
        if unmet * g.nodes <= env' {
          RunOneNeeds(g, ps[0], skips[0], unmet, env);
        }
        if Unmet(g, ps) * g.nodes <= env {
          RunOneSucceeds(g, ps[0], skips[0], unmet, env);
        }
    }
  }
}
