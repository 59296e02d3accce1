/**
 * The filter engine's objects (src/gips_core.h, src/gips_core.cpp): a
 * `Node` is one loaded filter with its parameters and dirty flags, a
 * `Pipeline` the ordered list of nodes with its own dirty flag, its two
 * ping-pong render targets and the structural edits on the list.
 *
 * OpenGL is reduced to what the bookkeeping depends on: whether the vertex
 * shader compiled and which two texture names `glGenTextures` returned are
 * parameters of `Init`, and `Render` reports the draw calls it would issue
 * instead of issuing them.
 */
module GipsCore {
  import opened StringUtil
  import opened GipsTypes
  import opened ShaderLoader
  import opened SeqEdit

  /** Whether some parameter reports a change. */
  predicate AnyDirty(ps: seq<Parameter>) {
    exists i :: 0 <= i < |ps| && ParamDirty(ps[i])
  }

  /** Every parameter after its `changed()` call. */
  function ConsumeAll(ps: seq<Parameter>): (r: seq<Parameter>)
    ensures |r| == |ps| && !AnyDirty(r)
    ensures forall i :: 0 <= i < |ps| ==> r[i].value == ps[i].value && r[i].name == ps[i].name
  {
    seq(|ps|, i requires 0 <= i < |ps| => Consumed(ps[i]))
  }

  /** The settings of a pass before any load has written them. */
  const InitialPasses: seq<PassData> := [DefaultPass, DefaultPass, DefaultPass, DefaultPass]

  class Node {
    var name: string
    var filename: string
    var errors: seq<Diagnostic>
    var passCount: nat
    var passes: seq<PassData>
    var params: seq<Parameter>
    var programChanged: bool
    var enabled: bool
    var wasEnabled: bool

    ghost predicate Valid()
      reads this
    {
      |passes| == MaxPasses && passCount <= MaxPasses
    }

    /** What the next `changed()` reports. */
    predicate Dirty()
      reads this
    {
      programChanged || wasEnabled != enabled || AnyDirty(params)
    }

    /** The state `changed()` leaves behind: nothing dirty, every parameter consumed, all else as before. */
    twostate predicate Settled()
      reads this
    {
      && Valid() && !Dirty() && params == ConsumeAll(old(params))
      && enabled == old(enabled) && name == old(name) && filename == old(filename) && errors == old(errors)
      && passCount == old(passCount) && passes == old(passes)
    }

    /** A fresh node is enabled, was not, and has a changed program: its first `changed()` is true. */
    constructor ()
      ensures Valid() && Dirty()
      ensures name == [] && filename == [] && errors == [] && passCount == 0 && params == []
      ensures passes == InitialPasses
      ensures programChanged && enabled && !wasEnabled
    {
      name := [];
      filename := [];
      errors := [];
      passCount := 0;
      passes := InitialPasses;
      params := [];
      programChanged := true;
      enabled := true;
      wasEnabled := false;
    }

    /**
     * `Node::changed`: reports the program change, an enable/disable since
     * the last call, or a parameter change, and consumes all of them; every
     * parameter is visited, with no short cut.
     */
    method Changed() returns (res: bool)
      requires Valid()
      modifies this
      ensures Valid() && !Dirty() && Settled()
      ensures res == old(Dirty())
      ensures params == ConsumeAll(old(params))
      ensures !programChanged && enabled == old(enabled) && wasEnabled == enabled
      ensures name == old(name) && filename == old(filename) && errors == old(errors)
      ensures passCount == old(passCount) && passes == old(passes)
    {
      res := programChanged || (wasEnabled != enabled);
      programChanged := false;
      wasEnabled := enabled;
      var ps := params;
      var i := 0;
      while i < |ps|
        invariant 0 <= i <= |ps| == |params|
        invariant forall j :: 0 <= j < i ==> ps[j] == Consumed(params[j])
        invariant forall j :: i <= j < |ps| ==> ps[j] == params[j]
        invariant res == (old(programChanged) || old(wasEnabled) != old(enabled)
                          || exists j :: 0 <= j < i && ParamDirty(params[j]))
        invariant params == old(params) && !programChanged && wasEnabled == enabled && enabled == old(enabled)
        invariant name == old(name) && filename == old(filename) && errors == old(errors)
        invariant passCount == old(passCount) && passes == old(passes)
      {
        var changed, q := ParameterChanged(ps[i]);
        ps := ps[i := q];
        if changed { res := true; }
        i := i + 1;
      }
      assert ps == ConsumeAll(params);
      params := ps;
    }

    method SetEnabled(e: bool)
      modifies this
      ensures enabled == e
      ensures name == old(name) && filename == old(filename) && errors == old(errors) && passCount == old(passCount)
      ensures passes == old(passes) && params == old(params)
      ensures programChanged == old(programChanged) && wasEnabled == old(wasEnabled)
    {
      enabled := e;
    }

    method Enable()
      modifies this
      ensures enabled
      ensures name == old(name) && filename == old(filename) && errors == old(errors) && passCount == old(passCount)
      ensures passes == old(passes) && params == old(params)
      ensures programChanged == old(programChanged) && wasEnabled == old(wasEnabled)
    {
      enabled := true;
    }

    method Disable()
      modifies this
      ensures !enabled
      ensures name == old(name) && filename == old(filename) && errors == old(errors) && passCount == old(passCount)
      ensures passes == old(passes) && params == old(params)
      ensures programChanged == old(programChanged) && wasEnabled == old(wasEnabled)
    {
      enabled := false;
    }

    /** Flips the enabled state and returns the new one; a toggle makes the node dirty iff it was not toggled since the last `changed()`. */
    method Toggle() returns (e: bool)
      modifies this
      ensures e == enabled && enabled == !old(enabled)
      ensures (wasEnabled != enabled) == (old(wasEnabled) == old(enabled))
      ensures name == old(name) && filename == old(filename) && errors == old(errors) && passCount == old(passCount)
      ensures passes == old(passes) && params == old(params)
      ensures programChanged == old(programChanged) && wasEnabled == old(wasEnabled)
    {
      enabled := !enabled;
      e := enabled;
    }

    /**
     * `Node::load`. A missing or empty file name returns false and touches
     * nothing. Otherwise the node takes the name `tc.stem` gives, is marked
     * as having a new program, and takes errors, parameters, pass settings
     * and pass count from the load; it succeeds iff a pass was built.
     */
    method Load(fname: Option<string>, tc: Toolchain) returns (ok: bool)
      requires Valid()
      modifies this
      ensures Valid()
      ensures fname.None? || fname.value == [] ==>
        !ok && name == old(name) && filename == old(filename) && errors == old(errors)
        && passCount == old(passCount) && passes == old(passes) && params == old(params)
        && programChanged == old(programChanged)
      ensures fname.Some? && fname.value != [] ==>
        var r := LoadFile(fname.value, old(params), old(passes), tc);
        && ok == (r.passCount > 0)
        && name == tc.stem(fname.value) && filename == fname.value && programChanged
        && errors == r.errors && params == r.params && passes == r.passes && passCount == r.passCount
      ensures enabled == old(enabled) && wasEnabled == old(wasEnabled)
    {
      if fname.None? || fname.value == [] {
        return false;
      }
      programChanged := true;
      passCount := 0;
      filename := fname.value;
      name := tc.stem(fname.value);
      var r := LoadShader(fname.value, params, passes, tc);
      LoadCountBound(fname.value, params, passes, tc);
      errors := r.errors;
      params := r.params;
      passes := r.passes;
      passCount := r.passCount;
      ok := passCount > 0;
    }
  }

  /** The pass count of a load never exceeds the number of passes. */
  lemma LoadCountBound(filename: string, oldParams: seq<Parameter>, oldPasses: seq<PassData>, tc: Toolchain)
    requires |oldPasses| == MaxPasses
    ensures LoadFile(filename, oldParams, oldPasses, tc).passCount <= MaxPasses
  {
    LoadPassCount(filename, oldParams, oldPasses, tc);
  }

  /** `maxNodes` as `render` uses it: a negative or too large count means all nodes. */
  function ClampCount(maxNodes: int, count: nat): (n: nat)
    ensures n <= count
    ensures 0 <= maxNodes <= count ==> n == maxNodes
    ensures maxNodes < 0 || maxNodes > count ==> n == count
  {
    if maxNodes < 0 || maxNodes > count then count else maxNodes
  }

  /** The output buffer of a pass: whichever of the two targets the input is not the first of. */
  function PingPong(input: nat, tex0: nat, tex1: nat): (out: nat)
    ensures out == tex0 || out == tex1
    ensures tex0 != tex1 ==> out != input
  {
    if input == tex0 then tex1 else tex0
  }

  /** One pass of one node: the `(node, pass)` pair. */
  datatype Slot = Slot(node: nat, pass: nat)

  /** What `render` reads of a node: whether it is enabled, its pass count and pass settings, its parameters. */
  datatype NodeView = NodeView(enabled: bool, passCount: nat, passes: seq<PassData>, params: seq<Parameter>)
  {
    predicate Valid() {
      |passes| == MaxPasses && passCount <= MaxPasses
    }
  }

  function View(n: Node): NodeView
    reads n
  {
    NodeView(n.enabled, n.passCount, n.passes, n.params)
  }

  /** The views of a node list, one per node. */
  function Views(ns: seq<Node>): (vs: seq<NodeView>)
    reads ns
    ensures |vs| == |ns| && forall i :: 0 <= i < |ns| ==> vs[i] == View(ns[i])
  {
    seq(|ns|, i reads ns requires 0 <= i < |ns| => View(ns[i]))
  }

  /** The passes `render` runs over the first `n` nodes: every pass of every enabled node, in order. */
  function Schedule(vs: seq<NodeView>, n: nat): (r: seq<Slot>)
    requires n <= |vs|
  {
    if n == 0 then []
    else Schedule(vs, n - 1) + NodeSlots(vs[n - 1], n - 1)
  }

  /** The passes of node `i`, or none when it is disabled. */
  function NodeSlots(v: NodeView, i: nat): (r: seq<Slot>)
    ensures |r| == if v.enabled then v.passCount else 0
    ensures forall k :: 0 <= k < |r| ==> r[k] == Slot(i, k)
  {
    if v.enabled then seq(v.passCount, p requires 0 <= p => Slot(i, p)) else []
  }

  /**
   * One draw call as `render` issues it: the pass, the texture it reads, the
   * texture it writes, the filter and coordinate settings, and the values
   * uploaded for the node's parameters.
   */
  datatype Draw = Draw(slot: Slot, input: nat, output: nat, texFilter: bool, coordMode: CoordMapMode, uploads: seq<seq<real>>)

  /** The `glUniform*` upload of one parameter: its first 1, 2, 3 or 4 values, or nothing for a type the switch skips. */
  function Upload(p: Parameter): (u: seq<real>)
    ensures |u| == UniformArity(p.ptype) && u == p.value[..|u|]
  {
    p.value[..UniformArity(p.ptype)]
  }

  /** Each draw reads what the previous one wrote; the first one reads the source image. */
  predicate Chained(src: nat, draws: seq<Draw>) {
    && (draws != [] ==> draws[0].input == src)
    && forall k :: 0 < k < |draws| ==> draws[k].input == draws[k - 1].output
  }

  /** The texture holding the picture after the draws: the source if there were none. */
  function ResultOf(src: nat, draws: seq<Draw>): nat {
    if draws == [] then src else draws[|draws| - 1].output
  }

  class Pipeline {
    var nodes: seq<Node>
    var width: int
    var height: int
    var tex0: nat
    var tex1: nat
    var pipelineChanged: bool
    var resultTex: nat
    var initialized: bool
    var initOK: bool

    /** Every node is listed once (each is its own heap object) and is well formed. */
    ghost predicate Valid()
      reads this, nodes
    {
      && Distinct(nodes)
      && forall i :: 0 <= i < |nodes| ==> nodes[i].Valid()
    }

    /** A pipeline starts empty, dirty and uninitialised. */
    constructor ()
      ensures Valid() && nodes == [] && pipelineChanged && !initialized && !initOK
      ensures width == 0 && height == 0 && tex0 == 0 && tex1 == 0 && resultTex == 0
    {
      nodes := [];
      width := 0;
      height := 0;
      tex0 := 0;
      tex1 := 0;
      pipelineChanged := true;
      resultTex := 0;
      initialized := false;
      initOK := false;
    }

    function NodeCount(): nat
      reads this
    {
      |nodes|
    }

    method MarkAsChanged()
      modifies this
      ensures pipelineChanged && nodes == old(nodes) && initialized == old(initialized) && initOK == old(initOK)
      ensures tex0 == old(tex0) && tex1 == old(tex1) && resultTex == old(resultTex)
      ensures width == old(width) && height == old(height)
    {
      pipelineChanged := true;
    }

    /**
     * `Pipeline::init`: the first call records whether the vertex shader
     * compiled (`vsGood`) and the two texture names; every later call only
     * repeats the first answer.
     */
    method Init(vsGood: bool, names: (nat, nat)) returns (ok: bool)
      modifies this
      ensures initialized && ok == initOK
      ensures old(initialized) ==> ok == old(initOK) && tex0 == old(tex0) && tex1 == old(tex1)
      ensures !old(initialized) ==> ok == vsGood && tex0 == names.0 && tex1 == names.1
      ensures nodes == old(nodes) && pipelineChanged == old(pipelineChanged) && resultTex == old(resultTex)
      ensures width == old(width) && height == old(height)
    {
      if initialized {
        return initOK;
      }
      tex0, tex1 := names.0, names.1;
      initOK := vsGood;
      initialized := true;
      ok := initOK;
    }

    /**
     * `Pipeline::addNode(index)`: after a successful `init`, a fresh node is
     * inserted at `index`, or appended when `index` is outside
     * `0..nodeCount()`; a failed `init`, or a failed `new(std::nothrow)`
     * (`allocOK` false), adds nothing.
     */
    method AddNode(index: int, vsGood: bool, names: (nat, nat), allocOK: bool) returns (n: Node?)
      requires Valid()
      modifies this
      ensures Valid() && initialized
      ensures n == null <==> !initOK || !allocOK
      ensures n == null ==> nodes == old(nodes) && pipelineChanged == old(pipelineChanged)
      ensures n != null ==>
        && fresh(n) && n.Dirty() && n.programChanged && n.params == [] && n.passes == InitialPasses && n.passCount == 0
        && nodes == InsertAt(old(nodes), if 0 <= index <= |old(nodes)| then index else |old(nodes)|, n)
        && pipelineChanged
      ensures old(initialized) ==> tex0 == old(tex0) && tex1 == old(tex1)
      ensures !old(initialized) ==> tex0 == names.0 && tex1 == names.1
      ensures resultTex == old(resultTex) && width == old(width) && height == old(height)
    {
      var ok := Init(vsGood, names);
      if !ok {
        return null;
      }
      if !allocOK {
        return null;
      }
      n := new Node();
      var lastIndex := |nodes|;
      var at := if 0 <= index <= lastIndex then index else lastIndex;
      var s := nodes;
      nodes := ShiftInsert(nodes, at, n);
      InsertKeeps(s, at, n);
      pipelineChanged := true;
    }

    /** `Pipeline::addNode(filename, index)`: the structural insertion, then a load into the new node. */
    method AddNodeFile(fname: Option<string>, index: int, vsGood: bool, names: (nat, nat), allocOK: bool, tc: Toolchain) returns (n: Node?)
      requires Valid()
      modifies this
      ensures Valid()
      ensures n == null <==> !initOK || !allocOK
      ensures n == null ==> nodes == old(nodes)
      ensures n != null ==>
        && fresh(n)
        && nodes == InsertAt(old(nodes), if 0 <= index <= |old(nodes)| then index else |old(nodes)|, n)
        && pipelineChanged && n.programChanged
        && (fname.Some? && fname.value != [] ==>
              var r := LoadFile(fname.value, [], InitialPasses, tc);
              n.params == r.params && n.passCount == r.passCount && n.errors == r.errors && n.filename == fname.value)
    {
      n := AddNode(index, vsGood, names, allocOK);
      if n != null {
        var _ := n.Load(fname, tc);
      }
    }

    /** `Pipeline::removeNode`: an index outside the list changes nothing, not even the dirty flag. */
    method RemoveNode(index: int)
      requires Valid()
      modifies this
      ensures Valid()
      ensures !(0 <= index < |old(nodes)|) ==> nodes == old(nodes) && pipelineChanged == old(pipelineChanged)
      ensures 0 <= index < |old(nodes)| ==> nodes == RemoveAt(old(nodes), index) && pipelineChanged
      ensures initialized == old(initialized) && initOK == old(initOK) && tex0 == old(tex0) && tex1 == old(tex1)
      ensures resultTex == old(resultTex) && width == old(width) && height == old(height)
    {
      var lastIndex := |nodes| - 1;
      if index < 0 || index > lastIndex {
        return;
      }
      var s := nodes;
      nodes := ShiftRemove(nodes, index);
      RemoveKeeps(s, index);
      pipelineChanged := true;
    }

    /**
     * `Pipeline::moveNode`: with both indices in range and different, the
     * node at `fromIndex` ends up at `toIndex` and the nodes between shift
     * one step toward `fromIndex`; otherwise nothing changes.
     */
    method MoveNode(fromIndex: int, toIndex: int)
      requires Valid()
      modifies this
      ensures Valid()
      ensures !(0 <= fromIndex < |old(nodes)| && 0 <= toIndex < |old(nodes)| && fromIndex != toIndex) ==>
        nodes == old(nodes) && pipelineChanged == old(pipelineChanged)
      ensures 0 <= fromIndex < |old(nodes)| && 0 <= toIndex < |old(nodes)| && fromIndex != toIndex ==>
        nodes == MoveTo(old(nodes), fromIndex, toIndex) && pipelineChanged
      ensures multiset(nodes) == multiset(old(nodes))
      ensures initialized == old(initialized) && initOK == old(initOK) && tex0 == old(tex0) && tex1 == old(tex1)
      ensures resultTex == old(resultTex) && width == old(width) && height == old(height)
    {
      var lastIndex := |nodes| - 1;
      if fromIndex < 0 || fromIndex > lastIndex || toIndex < 0 || toIndex > lastIndex || fromIndex == toIndex {
        return;
      }
      var s := nodes;
      nodes := ShiftMove(nodes, fromIndex, toIndex);
      MoveMultiset(s, fromIndex, toIndex);
      MoveDistinct(s, fromIndex, toIndex);
      MoveSources(s, fromIndex, toIndex);
      pipelineChanged := true;
    }

    /**
     * `Pipeline::changed`: the pipeline's own flag or any node's change,
     * with every node's `changed()` called (no short cut), so that
     * afterwards nothing is dirty any more.
     */
    method Changed() returns (res: bool)
      requires Valid()
      modifies this, nodes
      ensures Valid() && nodes == old(nodes) && !pipelineChanged
      ensures res == (old(pipelineChanged) || exists i :: 0 <= i < |nodes| && old(nodes[i].Dirty()))
      ensures forall i :: 0 <= i < |nodes| ==> nodes[i].Settled()
      ensures initialized == old(initialized) && initOK == old(initOK) && tex0 == old(tex0) && tex1 == old(tex1)
      ensures resultTex == old(resultTex) && width == old(width) && height == old(height)
    {
      res := pipelineChanged;
      pipelineChanged := false;
      var any := ChangedNodes(nodes);
      res := res || any;
    }

    /**
     * `Pipeline::render`: runs every pass of every enabled node among the
     * first `maxNodes` (all of them when out of range), each pass reading
     * the previous result and writing the ping-pong buffer it does not read,
     * and leaves the last output, or the source, as the result.
     */
    method Render(srcTex: nat, w: int, h: int, maxNodes: int) returns (draws: seq<Draw>)
      requires Valid()
      modifies this
      ensures nodes == old(nodes) && width == w && height == h
      ensures tex0 == old(tex0) && tex1 == old(tex1) && initialized == old(initialized) && initOK == old(initOK)
      ensures pipelineChanged == old(pipelineChanged)
      ensures Rendered(old(Views(nodes)), maxNodes, srcTex, tex0, tex1, draws, resultTex)
    {
      var vs := Views(nodes);
      var result;
      draws, result := RenderNodes(vs, maxNodes, srcTex, tex0, tex1);
      if w != width || h != height {
        width, height := w, h;
      }
      resultTex := result;
    }
  }

  /** The node loop of `Pipeline::changed`: every node's `changed()` is called, with no short cut. */
  method ChangedNodes(ns: seq<Node>) returns (any: bool)
    requires Distinct(ns) && forall i :: 0 <= i < |ns| ==> ns[i].Valid()
    modifies ns
    ensures any == exists i :: 0 <= i < |ns| && old(ns[i].Dirty())
    ensures forall i :: 0 <= i < |ns| ==> ns[i].Settled()
  {
    any := false;
    var i := 0;
    while i < |ns|
      invariant 0 <= i <= |ns|
      invariant any == exists j :: 0 <= j < i && old(ns[j].Dirty())
      invariant forall j :: 0 <= j < i ==> ns[j].Settled()
      invariant forall j :: i <= j < |ns| ==> unchanged(ns[j])
    {
      var c := ns[i].Changed();
      if c { any := true; }
      i := i + 1;
    }
  }

  /**
   * What `render` does with the nodes `vs`: the draws of every pass of every
   * enabled node among the first `maxNodes` (clamped), chained from `src`,
   * and the texture left holding the picture.
   */
  ghost predicate Rendered(vs: seq<NodeView>, maxNodes: int, src: nat, tex0: nat, tex1: nat, draws: seq<Draw>, result: nat) {
    DrawsFor(vs, Schedule(vs, ClampCount(maxNodes, |vs|)), draws, src, tex0, tex1) && result == ResultOf(src, draws)
  }

  /** A pass is scheduled exactly when its node is among the first `n`, is enabled, and has that many passes. */
  lemma {:induction false} ScheduleSlots(vs: seq<NodeView>, n: nat, j: nat, p: nat)
    requires n <= |vs|
    ensures Slot(j, p) in Schedule(vs, n) <==> j < n && vs[j].enabled && p < vs[j].passCount
  {
    if n > 0 {
      ScheduleSlots(vs, n - 1, j, p);
      var tail := NodeSlots(vs[n - 1], n - 1);
      if j == n - 1 && vs[j].enabled && p < vs[j].passCount {
        assert tail[p] == Slot(j, p);
      }
    }
  }

  /** No node among the first `n` is enabled with a pass. */
  predicate Idle(vs: seq<NodeView>, n: nat)
    requires n <= |vs|
  {
    forall j :: 0 <= j < n ==> !vs[j].enabled || vs[j].passCount == 0
  }

  /** Nothing is drawn exactly when no node among the first `n` is enabled with a pass. */
  lemma {:induction false} ScheduleEmpty(vs: seq<NodeView>, n: nat)
    requires n <= |vs|
    ensures |Schedule(vs, n)| == 0 <==> Idle(vs, n)
  {
    if n > 0 {
      ScheduleEmpty(vs, n - 1);
      var s := Schedule(vs, n - 1);
      var tail := NodeSlots(vs[n - 1], n - 1);
      assert |Schedule(vs, n)| == |s| + |tail|;
      assert Idle(vs, n) <==> Idle(vs, n - 1) && (!vs[n - 1].enabled || vs[n - 1].passCount == 0);
    }
  }

  /**
   * With two distinct buffers, no pass writes the texture it reads, every
   * pass writes one of the two buffers, and the result is the source exactly
   * when no pass ran and one of the buffers otherwise.
   */
  lemma RenderedBuffers(vs: seq<NodeView>, maxNodes: int, src: nat, tex0: nat, tex1: nat, draws: seq<Draw>, result: nat)
    requires Rendered(vs, maxNodes, src, tex0, tex1, draws, result) && tex0 != tex1
    ensures forall k :: 0 <= k < |draws| ==> draws[k].output != draws[k].input && (draws[k].output == tex0 || draws[k].output == tex1)
    ensures draws == [] <==> Idle(vs, ClampCount(maxNodes, |vs|))
    ensures draws == [] ==> result == src
    ensures draws != [] ==> result == tex0 || result == tex1
  {
    ScheduleEmpty(vs, ClampCount(maxNodes, |vs|));
    if draws != [] {
      assert result == draws[|draws| - 1].output;
    }
  }

  /** The clamp and the node loop of `render`, from the source texture `src`. */
  method RenderNodes(vs: seq<NodeView>, maxNodes: int, src: nat, tex0: nat, tex1: nat) returns (draws: seq<Draw>, result: nat)
    requires forall i :: 0 <= i < |vs| ==> vs[i].Valid()
    ensures Rendered(vs, maxNodes, src, tex0, tex1, draws, result)
  {
    var maxN := if maxNodes < 0 || maxNodes > |vs| then |vs| else maxNodes;
    result := src;
    draws := [];
    var nodeIndex := 0;
    while nodeIndex < maxN
      invariant 0 <= nodeIndex <= maxN
      invariant DrawsFor(vs, Schedule(vs, nodeIndex), draws, src, tex0, tex1)
      invariant result == ResultOf(src, draws)
    {
      draws, result := RenderStep(vs, nodeIndex, draws, result, src, tex0, tex1);
      nodeIndex := nodeIndex + 1;
    }
  }

  /** One turn of the node loop of `render`: node `i` draws its passes only when it is enabled. */
  method RenderStep(vs: seq<NodeView>, i: nat, draws: seq<Draw>, result: nat, src: nat, tex0: nat, tex1: nat)
    returns (draws': seq<Draw>, result': nat)
    requires i < |vs| && vs[i].Valid()
    requires DrawsFor(vs, Schedule(vs, i), draws, src, tex0, tex1) && result == ResultOf(src, draws)
    ensures DrawsFor(vs, Schedule(vs, i + 1), draws', src, tex0, tex1) && result' == ResultOf(src, draws')
  {
    var more: seq<Draw> := [];
    var out := result;
    if vs[i].enabled {
      more, out := RenderNode(vs, i, result, tex0, tex1);
    }
    ScheduleNext(vs, i, draws, more, src, tex0, tex1);
    draws' := draws + more;
    result' := out;
  }

  /** The draws of node `i` (none when it is disabled) extend the schedule of the nodes before it. */
  lemma ScheduleNext(vs: seq<NodeView>, i: nat, draws: seq<Draw>, more: seq<Draw>, src: nat, tex0: nat, tex1: nat)
    requires i < |vs|
    requires DrawsFor(vs, Schedule(vs, i), draws, src, tex0, tex1)
    requires DrawsFor(vs, NodeSlots(vs[i], i), more, ResultOf(src, draws), tex0, tex1)
    ensures DrawsFor(vs, Schedule(vs, i + 1), draws + more, src, tex0, tex1)
    ensures ResultOf(src, draws + more) == ResultOf(ResultOf(src, draws), more)
  {
    ChainAppend(vs, Schedule(vs, i), draws, NodeSlots(vs[i], i), more, src, tex0, tex1);
  }

  /** The shift loop of `addNode(index)`: the list grows by one and the entries from `at` on move up to make room. */
  method ShiftInsert<T>(s: seq<T>, at: nat, x: T) returns (ns: seq<T>)
    requires at <= |s|
    ensures ns == InsertAt(s, at, x)
  {
    ns := s + [x];
    var lastIndex := |s|;
    var i := lastIndex;
    while i > at
      invariant at <= i <= lastIndex && |ns| == lastIndex + 1
      invariant forall j :: 0 <= j < i ==> ns[j] == s[j]
      invariant forall j :: i < j <= lastIndex ==> ns[j] == s[j - 1]
    {
      ns := ns[i := ns[i - 1]];
      i := i - 1;
    }
    ns := ns[at := x];
  }

  /** The shift loop of `removeNode`: the entries after `index` move down, then the list shrinks by one. */
  method ShiftRemove<T>(s: seq<T>, index: nat) returns (ns: seq<T>)
    requires index < |s|
    ensures ns == RemoveAt(s, index)
  {
    var lastIndex := |s| - 1;
    ns := s;
    var i := index;
    while i < lastIndex
      invariant index <= i <= lastIndex && |ns| == |s|
      invariant forall j :: 0 <= j < index ==> ns[j] == s[j]
      invariant forall j :: index <= j < i ==> ns[j] == s[j + 1]
      invariant forall j :: i <= j < |s| ==> ns[j] == s[j]
    {
      ns := ns[i := ns[i + 1]];
      i := i + 1;
    }
    ns := ns[..lastIndex];
  }

  /** Inserting a node that is not yet listed keeps the list free of repeats, and lists only it and the old nodes. */
  lemma InsertKeeps(s: seq<Node>, at: nat, x: Node)
    requires at <= |s| && Distinct(s) && x !in s
    ensures Distinct(InsertAt(s, at, x))
    ensures forall j :: 0 <= j < |s| + 1 ==> InsertAt(s, at, x)[j] == x || InsertAt(s, at, x)[j] in s
  {
    var r := InsertAt(s, at, x);
    forall i, j | 0 <= i < j < |r|
      ensures r[i] != r[j]
    {
      if i == at {
        assert r[j] == s[j - 1];
      } else if j == at {
        assert r[i] == s[i];
      }
    }
  }

  /** Removing a node keeps the list free of repeats and lists only old nodes. */
  lemma RemoveKeeps(s: seq<Node>, index: nat)
    requires index < |s| && Distinct(s)
    ensures Distinct(RemoveAt(s, index))
    ensures forall j :: 0 <= j < |s| - 1 ==> RemoveAt(s, index)[j] in s
  {
    var r := RemoveAt(s, index);
    forall j | 0 <= j < |r|
      ensures r[j] in s
    {
      if j < index {
        assert r[j] == s[j];
      } else {
        assert r[j] == s[j + 1];
      }
    }
  }

  /** The two shift loops of `moveNode` on the node list `s`. */
  method ShiftMove<T>(s: seq<T>, fromIndex: nat, toIndex: nat) returns (ns: seq<T>)
    requires fromIndex < |s| && toIndex < |s| && fromIndex != toIndex
    ensures ns == MoveTo(s, fromIndex, toIndex)
  {
    ns := s;
    var n := ns[fromIndex];
    var i := fromIndex;
    while i < toIndex
      invariant fromIndex <= i < |s| && (fromIndex < toIndex ==> i <= toIndex) && |ns| == |s|
      invariant fromIndex > toIndex ==> i == fromIndex && ns == s
      invariant forall j :: 0 <= j < fromIndex ==> ns[j] == s[j]
      invariant forall j :: fromIndex <= j < i ==> ns[j] == s[j + 1]
      invariant forall j :: i <= j < |s| ==> ns[j] == s[j]
    {
      ns := ns[i := ns[i + 1]];
      i := i + 1;
    }
    while i > toIndex
      invariant toIndex <= i && (fromIndex > toIndex ==> i <= fromIndex) && |ns| == |s|
      invariant fromIndex < toIndex ==> i == toIndex && (forall j :: 0 <= j < fromIndex ==> ns[j] == s[j])
      invariant fromIndex < toIndex ==> forall j :: fromIndex <= j < toIndex ==> ns[j] == s[j + 1]
      invariant fromIndex < toIndex ==> forall j :: toIndex <= j < |s| ==> ns[j] == s[j]
      invariant fromIndex > toIndex ==> forall j :: 0 <= j <= i ==> ns[j] == s[j]
      invariant fromIndex > toIndex ==> forall j :: i < j <= fromIndex ==> ns[j] == s[j - 1]
      invariant fromIndex > toIndex ==> forall j :: fromIndex < j < |s| ==> ns[j] == s[j]
    {
      ns := ns[i := ns[i - 1]];
      i := i - 1;
    }
    ns := ns[toIndex := n];
    MovePointwise(s, fromIndex, toIndex);
    assert ns == MoveTo(s, fromIndex, toIndex);
  }

  /** The pass loop of `render` for one enabled node, starting from the texture `input`. */
  method RenderNode(vs: seq<NodeView>, i: nat, input: nat, tex0: nat, tex1: nat) returns (draws: seq<Draw>, out: nat)
    requires i < |vs| && vs[i].Valid() && vs[i].enabled
    ensures DrawsFor(vs, NodeSlots(vs[i], i), draws, input, tex0, tex1)
    ensures out == ResultOf(input, draws)
  {
    var v := vs[i];
    var uploads := UploadAll(v.params);
    draws := [];
    out := input;
    var passIndex := 0;
    while passIndex < v.passCount
      invariant 0 <= passIndex <= v.passCount
      invariant DrawsFor(vs, NodeSlots(v, i)[..passIndex], draws, input, tex0, tex1)
      invariant out == ResultOf(input, draws)
    {
      var outTex := if out == tex0 then tex1 else tex0;
      var pass := v.passes[passIndex];
      var d := Draw(Slot(i, passIndex), out, outTex, pass.texFilter, pass.coordMode, uploads);
      PassNext(vs, i, passIndex, draws, d, input, tex0, tex1);
      draws := draws + [d];
      out := outTex;
      passIndex := passIndex + 1;
    }
    assert NodeSlots(v, i)[..passIndex] == NodeSlots(v, i);
  }

  /** The draw of pass `p` of node `i` extends the draws of its earlier passes. */
  lemma PassNext(vs: seq<NodeView>, i: nat, p: nat, draws: seq<Draw>, d: Draw, input: nat, tex0: nat, tex1: nat)
    requires i < |vs| && vs[i].Valid() && vs[i].enabled && p < vs[i].passCount
    requires DrawsFor(vs, NodeSlots(vs[i], i)[..p], draws, input, tex0, tex1)
    requires var out := ResultOf(input, draws);
      d == Draw(Slot(i, p), out, PingPong(out, tex0, tex1), vs[i].passes[p].texFilter, vs[i].passes[p].coordMode, Uploads(vs[i].params))
    ensures DrawsFor(vs, NodeSlots(vs[i], i)[..p + 1], draws + [d], input, tex0, tex1)
  {
    assert NodeSlots(vs[i], i)[..p + 1] == NodeSlots(vs[i], i)[..p] + [Slot(i, p)];
  }

  /** Two chained runs of draws, one after the other, are one chained run. */
  lemma ChainAppend(vs: seq<NodeView>, s1: seq<Slot>, d1: seq<Draw>, s2: seq<Slot>, d2: seq<Draw>, src: nat, tex0: nat, tex1: nat)
    requires DrawsFor(vs, s1, d1, src, tex0, tex1)
    requires DrawsFor(vs, s2, d2, ResultOf(src, d1), tex0, tex1)
    ensures DrawsFor(vs, s1 + s2, d1 + d2, src, tex0, tex1)
    ensures ResultOf(src, d1 + d2) == ResultOf(ResultOf(src, d1), d2)
  {
    var d := d1 + d2;
    forall k | 0 < k < |d|
      ensures d[k].input == d[k - 1].output
    {
      if k > |d1| {
        assert d[k] == d2[k - |d1|] && d[k - 1] == d2[k - 1 - |d1|];
      } else if k == |d1| {
        assert d[k] == d2[0];
      }
    }
  }

  /** The uploads of all parameters, in order. */
  function Uploads(ps: seq<Parameter>): (u: seq<seq<real>>)
    ensures |u| == |ps| && forall i :: 0 <= i < |ps| ==> u[i] == Upload(ps[i])
  {
    seq(|ps|, i requires 0 <= i < |ps| => Upload(ps[i]))
  }

  /** The parameter loop of `render`. */
  method UploadAll(ps: seq<Parameter>) returns (u: seq<seq<real>>)
    ensures u == Uploads(ps)
  {
    u := [];
    var i := 0;
    while i < |ps|
      invariant 0 <= i <= |ps| && |u| == i
      invariant forall j :: 0 <= j < i ==> u[j] == Upload(ps[j])
    {
      var p := ps[i];
      var n := UniformArity(p.ptype);
      u := u + [p.value[..n]];
      i := i + 1;
    }
  }

  /** One draw call of node `d.slot.node` as its pass settings and parameters dictate. */
  ghost predicate DrawOf(vs: seq<NodeView>, d: Draw, tex0: nat, tex1: nat)
  {
    && d.output == PingPong(d.input, tex0, tex1)
    && d.slot.node < |vs| && d.slot.pass < |vs[d.slot.node].passes|
    && d.texFilter == vs[d.slot.node].passes[d.slot.pass].texFilter
    && d.coordMode == vs[d.slot.node].passes[d.slot.pass].coordMode
    && d.uploads == Uploads(vs[d.slot.node].params)
  }

  /** `draws` are the draw calls for `slots`, chained from `src` through the two buffers. */
  ghost predicate DrawsFor(vs: seq<NodeView>, slots: seq<Slot>, draws: seq<Draw>, src: nat, tex0: nat, tex1: nat)
  {
    && |draws| == |slots|
    && Chained(src, draws)
    && forall k :: 0 <= k < |draws| ==> draws[k].slot == slots[k] && DrawOf(vs, draws[k], tex0, tex1)
  }
}
