/** The `Cursor` of sgf.py and `Node.is_same_move`: a stack of frames over a
    game whose forks hang under the nodes' `"variants"` key. `next` moves into
    the tree, `previous` moves back, `add_node` grows the tree at the cursor.
    The cursor is modelled on trees in which no node has a text property named
    `variants` (`Plain`). */
module OldCursor {
  import opened SgfBase
  import opened OldTree

  /** A frame `(node, index, l)`: `l` is the line at `addr`, the node its
      element at `index`. */
  datatype Frame = Frame(addr: OAddr, index: nat)

  predicate FrameOk(g: OLine, f: Frame)
  {
    LineAt(g, f.addr).Some? && f.index < |LineAt(g, f.addr).value|
  }

  function FrameLine(g: OLine, f: Frame): OLine
    requires FrameOk(g, f)
  {
    LineAt(g, f.addr).value
  }

  /** `get_node`. */
  function NodeAt(g: OLine, f: Frame): ONode
    requires FrameOk(g, f)
  {
    FrameLine(g, f)[f.index]
  }

  /** `get_variants_num`: 1 for a node without forks, else its number of
      branches. */
  function VariantsNum(n: ONode): (k: nat)
    ensures !HasVariantsKey(n) ==> k == 1
    ensures n.variants.Variants? ==> k == |n.variants.branches|
  {
    if n.variants.Variants? then |n.variants.branches| else 1
  }

  /** Python's `xs[v]` for a list of length `n`, where negative `v` counts from the end. */
  function PyIndex(v: int, n: nat): (k: nat)
    requires v + n >= 0 && v < n
    ensures k < n && (v >= 0 ==> k == v) && (v < 0 ==> k == n + v)
  {
    if v < 0 then n + v else v
  }

  /** Where `next(v)` moves the cursor from frame `f`: the pushed frame,
      `None` at the end of a line, or the error it raises; the `assert` that
      the chosen branch is not empty fails as an `AssertionError`. */
  function NextFrame(g: OLine, f: Frame, v: int): (r: Result<Option<Frame>>)
    requires FrameOk(g, f)
    ensures r.Err? ==>
      r.error in {CursorError("Invalid variant."), CursorError("No variant."), Crash("IndexError"), Crash("AssertionError")}
    ensures r == Ok(None) <==> NodeAt(g, f).variants.NoVariants? && v == 0 && |FrameLine(g, f)| == f.index + 1
    ensures r.Ok? && r.value.Some? ==> var h := r.value.value;
      (h == Frame(f.addr, f.index + 1) && NodeAt(g, f).variants.NoVariants?) ||
      (h.index == 0 && |h.addr| == |f.addr| + 1 && h.addr[..|f.addr|] == f.addr &&
       h.addr[|f.addr|].node == f.index && NodeAt(g, f).variants.Variants? &&
       h.addr[|f.addr|].variant < |NodeAt(g, f).variants.branches| &&
       NodeAt(g, f).variants.branches[h.addr[|f.addr|].variant].line != [])
  {
    var n := NodeAt(g, f);
    match n.variants
    case Variants(vs) =>
      if v >= |vs| then Err(CursorError("Invalid variant."))
      else if v + |vs| < 0 then Err(Crash("IndexError"))
      else if vs[PyIndex(v, |vs|)].line == [] then Err(Crash("AssertionError"))
      else Ok(Some(Frame(f.addr + [OStep(f.index, PyIndex(v, |vs|))], 0)))
    case NoVariants =>
      if v != 0 then Err(CursorError("No variant."))
      else if |FrameLine(g, f)| <= f.index + 1 then Ok(None)
      else Ok(Some(Frame(f.addr, f.index + 1)))
  }

  /** Frame `f` lies on the way to frame `h`: earlier in the same line, or in
      a line above it, at or before the node whose branch leads down to it. */
  predicate Before(f: Frame, h: Frame)
  {
    (f.addr == h.addr && f.index < h.index) ||
    (IsPrefix(f.addr, h.addr) && |f.addr| < |h.addr| && f.index <= h.addr[|f.addr|].node)
  }

  /** The stack a cursor can have: it starts at the root, every frame is at a
      node, and every frame lies on the way to each frame pushed after it. */
  predicate StackOk(g: OLine, st: seq<Frame>)
  {
    Plain(g) && |st| >= 1 && st[0] == Frame([], 0) &&
    (forall k :: 0 <= k < |st| ==> FrameOk(g, st[k])) &&
    (forall j, k :: 0 <= j < k < |st| ==> Before(st[j], st[k]))
  }

  lemma NextLands(g: OLine, f: Frame, v: int)
    requires FrameOk(g, f) && NextFrame(g, f, v).Ok? && NextFrame(g, f, v).value.Some?
    ensures var h := NextFrame(g, f, v).value.value; FrameOk(g, h) && Before(f, h)
  {
    var n := NodeAt(g, f);
    if n.variants.Variants? {
      var vs := n.variants.branches;
      var s := OStep(f.index, PyIndex(v, |vs|));
      LineAtSnoc(g, f.addr, s);
      assert (f.addr + [s])[..|f.addr|] == f.addr;
    }
  }

  /** What `next(v)` returns: the error it raises, `None` at the end of a
      line, or the node it moves to. */
  function NextNode(g: OLine, f: Frame, v: int): (r: Result<Option<ONode>>)
    requires FrameOk(g, f)
    ensures r.Err? <==> NextFrame(g, f, v).Err?
    ensures r.Err? ==> r.error == NextFrame(g, f, v).error
    ensures r == Ok(None) <==> NextFrame(g, f, v) == Ok(None)
    ensures r.Ok? && r.value.Some? ==>
      NextFrame(g, f, v).Ok? && NextFrame(g, f, v).value.Some? &&
      FrameOk(g, NextFrame(g, f, v).value.value) && r.value.value == NodeAt(g, NextFrame(g, f, v).value.value)
  {
    match NextFrame(g, f, v)
    case Err(e) => Err(e)
    case Ok(None) => Ok(None)
    case Ok(Some(h)) => NextLands(g, f, v); Ok(Some(NodeAt(g, h)))
  }

  /** The outcomes of `next(v)`: a node with forks refuses an index past its
      branches; a node without refuses any index but 0, and at the end of the
      line the cursor stays put; otherwise it moves one frame on, into the
      chosen branch or to the next node of the line. */
  lemma NextOutcome(g: OLine, f: Frame, v: int)
    requires FrameOk(g, f)
    ensures var n := NodeAt(g, f);
      (NextFrame(g, f, v) == Err(CursorError("Invalid variant.")) <==> n.variants.Variants? && v >= VariantsNum(n)) &&
      (NextFrame(g, f, v) == Err(CursorError("No variant.")) <==> n.variants.NoVariants? && v != 0) &&
      (NextFrame(g, f, v) == Ok(None) <==> n.variants.NoVariants? && v == 0 && |FrameLine(g, f)| == f.index + 1)
    ensures NextFrame(g, f, v).Ok? && NextFrame(g, f, v).value.Some? ==>
      var h := NextFrame(g, f, v).value.value; var n := NodeAt(g, f);
      FrameOk(g, h) && Before(f, h) &&
      (n.variants.Variants? ==> h == Frame(f.addr + [OStep(f.index, PyIndex(v, VariantsNum(n)))], 0)) &&
      (n.variants.NoVariants? ==> h == Frame(f.addr, f.index + 1) && NodeAt(g, h) == FrameLine(g, f)[f.index + 1])
  {
    if NextFrame(g, f, v).Ok? && NextFrame(g, f, v).value.Some? {
      NextLands(g, f, v);
    }
  }

  /** Pushing the frame `next` moves to keeps the stack one a cursor can have. */
  lemma NextKeepsStack(g: OLine, st: seq<Frame>, v: int)
    requires StackOk(g, st)
    requires NextFrame(g, st[|st| - 1], v).Ok? && NextFrame(g, st[|st| - 1], v).value.Some?
    ensures StackOk(g, st + [NextFrame(g, st[|st| - 1], v).value.value])
  {
    var f := st[|st| - 1];
    var h := NextFrame(g, f, v).value.value;
    NextLands(g, f, v);
    var st' := st + [h];
    forall j | 0 <= j < |st|
      ensures Before(st[j], h)
    {
      if j < |st| - 1 {
        assert Before(st[j], f);
        if st[j].addr != f.addr {
          assert h.addr[..|f.addr|] == f.addr;
          assert h.addr[..|st[j].addr|] == f.addr[..|st[j].addr|];
        }
      }
    }
    assert forall j, k :: 0 <= j < k < |st'| ==> Before(st'[j], st'[k]);
  }

  /** `_get_children(frame)`: the next node of the line for a node without
      forks, else the first node of every branch that has one. */
  function Children(l: OLine, i: nat): (cs: seq<ONode>)
    requires i < |l|
    ensures l[i].variants.NoVariants? ==> cs == (if |l| <= i + 1 then [] else [l[i + 1]])
    ensures l[i].variants.Variants? ==> var vs := l[i].variants.branches;
      forall x :: x in cs <==> exists k :: 0 <= k < |vs| && vs[k].line != [] && vs[k].line[0] == x
  {
    match l[i].variants
    case NoVariants => if |l| <= i + 1 then [] else [l[i + 1]]
    case Variants(vs) => FirstNodes(vs)
  }

  function FirstNodes(vs: seq<OBranch>): (cs: seq<ONode>)
    ensures forall x :: x in cs <==> exists k :: 0 <= k < |vs| && vs[k].line != [] && vs[k].line[0] == x
  {
    if vs == [] then []
    else
      var rest := FirstNodes(vs[1..]);
      assert forall k :: 0 < k < |vs| ==> vs[k] == vs[1..][k - 1];
      if vs[0].line != [] then [vs[0].line[0]] + rest else rest
  }

  /** `add_node(node)` on line `l` at index `i`: the line it leaves, or the
      error. At the end of the line the node is appended, or, if the current
      node has forks, added as a branch of its own; in mid-line the rest of
      the line and the node become the two branches of the current node. */
  function AddToLine(l: OLine, i: nat, node: ONode): (r: Result<OLine>)
    requires i < |l|
    ensures r.Err? ==> r.error == CursorError("Node already exists.")
    ensures r.Ok? ==> |r.value| > i && r.value[..i] == l[..i] && r.value[i].props - {"variants"} == l[i].props - {"variants"}
  {
    if |l| == i + 1 then
      match l[i].variants
      case Variants(vs) =>
        if node in Children(l, i) then Err(CursorError("Node already exists."))
        else Ok(l[i := l[i].(variants := Variants(vs + [OBranch([node])]))])
      case NoVariants => Ok(l + [node])
    else if l[i + 1] == node then Err(CursorError("Node already exists."))
    else Ok(l[..i + 1][i := l[i].(props := l[i].props - {"variants"}, variants := Variants([OBranch(l[i + 1..]), OBranch([node])]))])
  }

  /** `add_node(node)` with the cursor at frame `f`: the tree it leaves. */
  function AddNodeTree(g: OLine, f: Frame, node: ONode): (r: Result<OLine>)
    requires FrameOk(g, f)
    ensures r.Err? <==> AddToLine(FrameLine(g, f), f.index, node).Err?
    ensures r.Err? ==> r.error == CursorError("Node already exists.")
    ensures r.Ok? ==> LineAt(r.value, f.addr) == Some(AddToLine(FrameLine(g, f), f.index, node).value)
  {
    match AddToLine(FrameLine(g, f), f.index, node)
    case Err(e) => Err(e)
    case Ok(nl) => GetPut(g, f.addr, nl); Ok(PutLine(g, f.addr, nl))
  }

  /** The three cases of `add_node`, each with its refusal. */
  lemma AddNodeCases(g: OLine, f: Frame, node: ONode)
    requires FrameOk(g, f)
    ensures var l := FrameLine(g, f); var i := f.index; var n := l[i];
      var r := AddToLine(l, i, node);
      (|l| == i + 1 && n.variants.NoVariants? ==> r == Ok(l + [node])) &&
      (|l| == i + 1 && n.variants.Variants? ==>
        var vs := n.variants.branches;
        (r.Err? <==> exists k :: 0 <= k < |vs| && vs[k].line != [] && vs[k].line[0] == node) &&
        (r.Err? ==> r.error == CursorError("Node already exists.")) &&
        (r.Ok? ==> |r.value| == |l| && r.value[..i] == l[..i] && r.value[i].props == n.props &&
                   r.value[i].variants == Variants(vs + [OBranch([node])]))) &&
      (|l| > i + 1 ==>
        (r.Err? <==> l[i + 1] == node) &&
        (r.Err? ==> r.error == CursorError("Node already exists.")) &&
        (r.Ok? ==> |r.value| == i + 1 && r.value[..i] == l[..i] && r.value[i].props == n.props - {"variants"} &&
                   r.value[i].variants == Variants([OBranch(l[i + 1..]), OBranch([node])])))
  {
  }

  /** The line `add_node` leaves keeps everything up to the current node, the
      current node's properties, and `Plain`. */
  lemma AddToLineKeepsPrefix(l: OLine, i: nat, node: ONode)
    requires Plain(l) && NodePlain(node) && i < |l| && AddToLine(l, i, node).Ok?
    ensures var nl := AddToLine(l, i, node).value;
      Plain(nl) && |nl| > i && nl[..i] == l[..i] && nl[i].props == l[i].props
  {
    var nl := AddToLine(l, i, node).value;
    assert Plain([node]);
    assert NodePlain(l[i]);
    if |l| == i + 1 {
      if l[i].variants.Variants? {
        var vs := l[i].variants.branches;
        assert NodePlain(l[i].(variants := Variants(vs + [OBranch([node])])));
        assert forall k :: 0 <= k < |nl| ==> NodePlain(nl[k]) by {
          forall k | 0 <= k < |nl| ensures NodePlain(nl[k]) { if k < i { assert nl[k] == l[k]; } }
        }
      } else {
        assert forall k :: 0 <= k < |nl| ==> NodePlain(nl[k]) by {
          forall k | 0 <= k < |nl| ensures NodePlain(nl[k]) { if k < |l| { assert nl[k] == l[k]; } }
        }
      }
    } else {
      var tail := l[i + 1..];
      assert Plain(tail) by {
        forall k | 0 <= k < |tail| ensures NodePlain(tail[k]) { assert tail[k] == l[i + 1 + k]; }
      }
      assert NodePlain(nl[i]);
      assert forall k :: 0 <= k < |nl| ==> NodePlain(nl[k]) by {
        forall k | 0 <= k < |nl| ensures NodePlain(nl[k]) { if k < i { assert nl[k] == l[k]; } }
      }
    }
  }

  /** `add_node` never moves the cursor: every frame of the stack is still at
      a node with the same properties, and the tree stays `Plain`. */
  lemma AddNodeKeepsStack(g: OLine, st: seq<Frame>, node: ONode)
    requires StackOk(g, st) && NodePlain(node) && AddNodeTree(g, st[|st| - 1], node).Ok?
    ensures var g' := AddNodeTree(g, st[|st| - 1], node).value;
      StackOk(g', st) && forall k :: 0 <= k < |st| ==> NodeAt(g', st[k]).props == NodeAt(g, st[k]).props
  {
    var f := st[|st| - 1];
    var l := FrameLine(g, f);
    PlainAt(g, f.addr);
    AddToLineKeepsPrefix(l, f.index, node);
    var nl := AddToLine(l, f.index, node).value;
    var g' := PutLine(g, f.addr, nl);
    PutPlain(g, f.addr, nl);
    GetPut(g, f.addr, nl);
    forall k | 0 <= k < |st|
      ensures FrameOk(g', st[k]) && NodeAt(g', st[k]).props == NodeAt(g, st[k]).props
    {
      var x := st[k];
      if x.addr == f.addr {
        assert x.index <= f.index by { if k < |st| - 1 { assert Before(x, f); } }
        if x.index < f.index {
          assert nl[x.index] == nl[..f.index][x.index];
        }
      } else {
        assert Before(x, f);
        PutAbove(g, f.addr, nl, x.addr);
      }
    }
  }

  /** What `add_node` changes: the line at the cursor becomes the new line,
      and every line off the path from the root to it is left as it was. */
  lemma AddNodeElsewhere(g: OLine, f: Frame, node: ONode, b: OAddr)
    requires FrameOk(g, f) && AddNodeTree(g, f, node).Ok?
    ensures LineAt(AddNodeTree(g, f, node).value, f.addr) == Some(AddToLine(FrameLine(g, f), f.index, node).value)
    ensures !IsPrefix(b, f.addr) && !IsPrefix(f.addr, b) ==> LineAt(AddNodeTree(g, f, node).value, b) == LineAt(g, b)
  {
    var nl := AddToLine(FrameLine(g, f), f.index, node).value;
    GetPut(g, f.addr, nl);
    if !IsPrefix(b, f.addr) && !IsPrefix(f.addr, b) {
      PutAside(g, f.addr, nl, b);
    }
  }

  /** `add_node` of a node without forks adds exactly one node to the tree,
      unless it forks a line in mid-line at a node that already has branches:
      those the source overwrites. */
  lemma AddNodeCount(g: OLine, f: Frame, node: ONode)
    requires FrameOk(g, f) && AddNodeTree(g, f, node).Ok? && node.variants.NoVariants?
    requires |FrameLine(g, f)| == f.index + 1 || NodeAt(g, f).variants.NoVariants?
    ensures Count(AddNodeTree(g, f, node).value) == Count(g) + 1
  {
    var l := FrameLine(g, f);
    var i := f.index;
    var nl := AddToLine(l, i, node).value;
    assert Count([node]) == 1 by {
      assert [node][1..] == [];
    }
    if |l| == i + 1 {
      if l[i].variants.Variants? {
        var vs := l[i].variants.branches;
        BranchesAppend(vs, [OBranch([node])]);
        assert BranchesCount([OBranch([node])]) == 1 by {
          assert [OBranch([node])][1..] == [];
        }
        CountUpdate(l, i, l[i].(variants := Variants(vs + [OBranch([node])])));
      } else {
        CountAppend(l, [node]);
      }
    } else {
      var tail := l[i + 1..];
      var n' := l[i].(props := l[i].props - {"variants"}, variants := Variants([OBranch(tail), OBranch([node])]));
      assert BranchesCount([OBranch(tail), OBranch([node])]) == Count(tail) + 1 by {
        assert [OBranch(tail), OBranch([node])][1..] == [OBranch([node])];
        assert [OBranch([node])][1..] == [];
      }
      assert NodeCount(n') == NodeCount(l[i]) + Count(tail) + 1;
      assert nl == l[..i] + [n'];
      assert l == l[..i] + [l[i]] + tail;
      CountAppend(l[..i], [n']);
      CountAppend(l[..i] + [l[i]], tail);
      CountAppend(l[..i], [l[i]]);
      assert Count([n']) == NodeCount(n') && Count([l[i]]) == NodeCount(l[i]) by {
        assert [n'][1..] == [] && [l[i]][1..] == [];
      }
    }
    CountPut(g, f.addr, nl);
  }

  /** After a successful `add_node`, the last way forward leads to the new
      node, which is how the variant merge follows the node it has added. */
  lemma AddThenNext(g: OLine, f: Frame, node: ONode)
    requires FrameOk(g, f) && AddNodeTree(g, f, node).Ok?
    ensures var g' := AddNodeTree(g, f, node).value;
      FrameOk(g', f) && NextNode(g', f, VariantsNum(NodeAt(g', f)) - 1) == Ok(Some(node))
  {
    var l := FrameLine(g, f);
    var nl := AddToLine(l, f.index, node).value;
    var g' := PutLine(g, f.addr, nl);
    GetPut(g, f.addr, nl);
    assert FrameOk(g', f);
    var n' := NodeAt(g', f);
    if n'.variants.Variants? {
      var vs' := n'.variants.branches;
      var s := OStep(f.index, |vs'| - 1);
      LineAtSnoc(g', f.addr, s);
      assert LineAt(g', f.addr + [s]) == Some([node]);
    }
  }

  /** `Node.is_same_move(other)`: `other` is a node whose `W` and `B` values
      are those of `n`, an absent key counting as `None`; `None` is never the
      same move. */
  predicate IsSameMove(n: Props, other: Option<ONode>)
    ensures other.None? ==> !IsSameMove(n, other)
    ensures IsSameMove(n, other) <==>
      other.Some? &&
      ("W" in n <==> "W" in other.value.props) && ("W" in n ==> n["W"] == other.value.props["W"]) &&
      ("B" in n <==> "B" in other.value.props) && ("B" in n ==> n["B"] == other.value.props["B"])
  {
    other.Some? && Get(n, "W") == Get(other.value.props, "W") && Get(n, "B") == Get(other.value.props, "B")
  }

  lemma SameMoveMeaning(n: Props, m: ONode)
    ensures IsSameMove(n, Some(m)) <==>
      ("W" in n <==> "W" in m.props) && ("W" in n ==> n["W"] == m.props["W"]) &&
      ("B" in n <==> "B" in m.props) && ("B" in n ==> n["B"] == m.props["B"])
    ensures !IsSameMove(n, None)
  {
  }

  /** The list work of `add_node` on the list `l` holding the cursor's node
      at `i`: the list it becomes, or the refusal. */
  method GrowLine(l0: OLine, i: nat, node: ONode) returns (r: Result<OLine>)
    requires i < |l0|
    ensures r == AddToLine(l0, i, node)
  {
    var l := l0;
    var cur := l[i];
    if |l| == i + 1 {
      if cur.variants.Variants? {
        var children := Children(l, i);
        var j := 0;
        while j < |children|
          invariant 0 <= j <= |children|
          invariant forall k :: 0 <= k < j ==> children[k] != node
        {
          if children[j] == node {
            return Err(CursorError("Node already exists."));
          }
          j := j + 1;
        }
        l := l[i := cur.(variants := Variants(cur.variants.branches + [OBranch([node])]))];
      } else {
        l := l + [node];
      }
    } else {
      if l[i + 1] == node {
        return Err(CursorError("Node already exists."));
      }
      var variants := [OBranch(l[i + 1..]), OBranch([node])];
      l := l[i := cur.(props := cur.props - {"variants"}, variants := Variants(variants))];
      while |l| > i + 1
        invariant i + 1 <= |l| <= |l0| && l == l0[i := l[i]][..|l|]
        invariant l[i] == cur.(props := cur.props - {"variants"}, variants := Variants(variants))
      {
        l := l[..|l| - 1];
      }
    }
    return Ok(l);
  }

  /** `Cursor(nodes)`: refuses an empty game, otherwise stands at the root. */
  method NewCursor(nodes: OLine) returns (r: Result<OCursor>)
    requires Plain(nodes)
    ensures r.Err? <==> nodes == []
    ensures r.Err? ==> r.error == CursorError("Empty game.")
    ensures r.Ok? ==> fresh(r.value) && r.value.Valid() && r.value.nodes == nodes && r.value.stack == [Frame([], 0)]
  {
    if |nodes| == 0 {
      return Err(CursorError("Empty game."));
    }
    var c := new OCursor(nodes);
    return Ok(c);
  }

  class OCursor {
    /** The game; the source shares this list with its caller, so whatever
        `AddNode` does to it the caller sees. */
    var nodes: OLine
    var stack: seq<Frame>

    ghost predicate Valid()
      reads this
    {
      StackOk(nodes, stack)
    }

    constructor (nodes: OLine)
      requires Plain(nodes) && nodes != []
      ensures Valid() && this.nodes == nodes && stack == [Frame([], 0)]
    {
      this.nodes := nodes;
      stack := [Frame([], 0)];
    }

    function Top(): Frame
      reads this
      requires |stack| > 0
    {
      stack[|stack| - 1]
    }

    /** `get_node`. */
    function GetNode(): (n: ONode)
      reads this
      requires Valid()
      ensures n == LineAt(nodes, Top().addr).value[Top().index]
      ensures |stack| == 1 ==> n == nodes[0]
    {
      NodeAt(nodes, Top())
    }

    /** `get_variants_num`. The source only ever creates a `variants` list
        together with its first branch, so the count it sees is at least 1. */
    function GetVariantsNum(): (k: nat)
      reads this
      requires Valid()
      ensures GetNode().variants.NoVariants? ==> k == 1
      ensures GetNode().variants.Variants? ==> k == |GetNode().variants.branches|
      ensures k == 0 ==> GetNode().variants == Variants([])
    {
      VariantsNum(GetNode())
    }

    /** `next(v)`. */
    method Next(v: int) returns (r: Result<Option<ONode>>)
      requires Valid()
      modifies this`stack
      ensures Valid()
      ensures r == NextNode(nodes, old(Top()), v)
      ensures match NextFrame(nodes, old(Top()), v)
        case Ok(Some(h)) => stack == old(stack) + [h]
        case _ => stack == old(stack)
    {
      var f := stack[|stack| - 1];
      var l := LineAt(nodes, f.addr).value;
      var node := l[f.index];
      ghost var nf := NextFrame(nodes, f, v);
      var h;
      if node.variants.Variants? {
        var variants := node.variants.branches;
        if v >= |variants| {
          return Err(CursorError("Invalid variant."));
        }
        if v + |variants| < 0 {
          return Err(Crash("IndexError"));
        }
        var k := if v < 0 then |variants| + v else v;
        if |variants[k].line| == 0 {
          return Err(Crash("AssertionError"));
        }
        h := Frame(f.addr + [OStep(f.index, k)], 0);
      } else {
        if v != 0 {
          return Err(CursorError("No variant."));
        }
        if |l| <= f.index + 1 {
          return Ok(None);
        }
        h := Frame(f.addr, f.index + 1);
      }
      assert nf == Ok(Some(h));
      NextKeepsStack(nodes, stack, v);
      stack := stack + [h];
      r := Ok(Some(GetNode()));
    }

    /** `get_next(v)`: what `next(v)` returns; the step is undone only when
        the node reached is not empty. */
    method GetNext(v: int) returns (r: Result<Option<ONode>>)
      requires Valid()
      modifies this`stack
      ensures Valid()
      ensures r == NextNode(nodes, old(Top()), v)
      ensures r.Ok? && r.value.Some? && !Truthy(r.value.value) ==>
        stack == old(stack) + [NextFrame(nodes, old(Top()), v).value.value]
      ensures !(r.Ok? && r.value.Some? && !Truthy(r.value.value)) ==> stack == old(stack)
    {
      r := Next(v);
      if r.Ok? && r.value.Some? && Truthy(r.value.value) {
        var _ := Previous();
      }
    }

    /** `previous()`: at the root nothing changes and the result is `None`;
        otherwise exactly one frame is popped. */
    method Previous() returns (r: Option<ONode>)
      requires Valid()
      modifies this`stack
      ensures Valid()
      ensures |old(stack)| == 1 ==> r == None && stack == old(stack)
      ensures |old(stack)| > 1 ==> stack == old(stack)[..|old(stack)| - 1] && r == Some(GetNode())
    {
      if |stack| == 1 {
        return None;
      }
      stack := stack[..|stack| - 1];
      r := Some(GetNode());
    }

    /** `add_node(node)`: grows the tree at the cursor as `AddNodeTree` says
        and leaves the cursor where it was. */
    method AddNode(node: ONode) returns (r: Result<()>)
      requires Valid() && NodePlain(node)
      modifies this`nodes
      ensures Valid()
      ensures match AddNodeTree(old(nodes), Top(), node)
        case Err(e) => r == Err(e) && nodes == old(nodes)
        case Ok(g) => r == Ok(()) && nodes == g
      ensures forall k :: 0 <= k < |stack| ==> NodeAt(nodes, stack[k]).props == NodeAt(old(nodes), stack[k]).props
    {
      var f := stack[|stack| - 1];
      var grown := GrowLine(LineAt(nodes, f.addr).value, f.index, node);
      if grown.Err? {
        return Err(grown.error);
      }
      AddNodeKeepsStack(nodes, stack, node);
      nodes := PutLine(nodes, f.addr, grown.value);
      r := Ok(());
    }
  }
}
