/** The `Cursor` of honey/sgf.py: a stack of frames over a game tree, each frame
    naming a node by the line it lies in and its index there. `next` moves into
    the tree, `previous` moves back, `add_node` grows the tree at the cursor. */
module HoneyCursor {
  import opened SgfBase
  import opened HoneyTree

  /** A frame `(node, index, line)`: the line is the one at `addr`, the node the
      element at `index` of it. */
  datatype Frame = Frame(addr: Addr, index: nat)

  predicate FrameOk(g: Line, f: Frame)
  {
    LineAt(g, f.addr).Some? && f.index < |LineAt(g, f.addr).value| && LineAt(g, f.addr).value[f.index].Node?
  }

  function FrameLine(g: Line, f: Frame): Line
    requires FrameOk(g, f)
  {
    LineAt(g, f.addr).value
  }

  /** `get_node`. */
  function NodeAt(g: Line, f: Frame): Props
    requires FrameOk(g, f)
  {
    FrameLine(g, f)[f.index].props
  }

  /** `get_variants`: the branches of the fork right after the node, if any. */
  function VariantsAt(g: Line, f: Frame): seq<Branch>
    requires FrameOk(g, f)
  {
    var l := FrameLine(g, f);
    if |l| <= f.index + 1 then [] else if l[f.index + 1].Variants? then l[f.index + 1].branches else []
  }

  /** `get_variants_num`: how many ways `next` can go. */
  function VariantsNum(g: Line, f: Frame): (n: nat)
    requires FrameOk(g, f)
    ensures n >= 1
    ensures VariantsAt(g, f) != [] ==> n == |VariantsAt(g, f)|
  {
    if VariantsAt(g, f) == [] then 1 else |VariantsAt(g, f)|
  }

  /** Python's `xs[v]` for a list of length `n`, where negative `v` counts from the end. */
  function PyIndex(v: int, n: nat): (k: nat)
    requires v + n >= 0 && v < n
    ensures k < n && (v >= 0 ==> k == v) && (v < 0 ==> k == n + v)
  {
    if v < 0 then n + v else v
  }

  /** Where `next(v)` moves the cursor from frame `f`: the pushed frame, `None`
      at the end of a line, or the error it raises. */
  function NextFrame(g: Line, f: Frame, v: int): (r: Result<Option<Frame>>)
    requires FrameOk(g, f)
    ensures r.Err? ==> r.error in {CursorError("Invalid variant."), CursorError("No variant."), Crash("IndexError")}
    ensures r == Ok(None) <==> VariantsAt(g, f) == [] && v == 0 && |FrameLine(g, f)| == f.index + 1
    ensures r.Ok? && r.value.Some? ==> var h := r.value.value;
      (h == Frame(f.addr, f.index + 1) && VariantsAt(g, f) == []) ||
      (h.index == 0 && |h.addr| == |f.addr| + 1 && h.addr[..|f.addr|] == f.addr &&
       h.addr[|f.addr|].elem == f.index + 1 && h.addr[|f.addr|].variant < |VariantsAt(g, f)|)
  {
    var vs := VariantsAt(g, f);
    if vs != [] then
      if v >= |vs| then Err(CursorError("Invalid variant."))
      else if v + |vs| < 0 then Err(Crash("IndexError"))
      else Ok(Some(Frame(f.addr + [Step(f.index + 1, PyIndex(v, |vs|))], 0)))
    else if v != 0 then Err(CursorError("No variant."))
    else if |FrameLine(g, f)| <= f.index + 1 then Ok(None)
    else Ok(Some(Frame(f.addr, f.index + 1)))
  }

  /** Frame `f` lies on the way to frame `h`: earlier in the same line, or in a
      line above it and before the fork that leads down to it. */
  predicate Before(f: Frame, h: Frame)
  {
    (f.addr == h.addr && f.index < h.index) ||
    (IsPrefix(f.addr, h.addr) && |f.addr| < |h.addr| && f.index < h.addr[|f.addr|].elem)
  }

  /** The stack a cursor can have: it starts at the root, every frame is at a
      node, and every frame lies on the way to each frame pushed after it. */
  predicate StackOk(g: Line, st: seq<Frame>)
  {
    WF(g) && |st| >= 1 && st[0] == Frame([], 0) &&
    (forall k :: 0 <= k < |st| ==> FrameOk(g, st[k])) &&
    (forall j, k :: 0 <= j < k < |st| ==> Before(st[j], st[k]))
  }

  lemma NextLands(g: Line, f: Frame, v: int)
    requires WF(g) && FrameOk(g, f) && NextFrame(g, f, v).Ok? && NextFrame(g, f, v).value.Some?
    ensures var h := NextFrame(g, f, v).value.value; FrameOk(g, h) && Before(f, h)
  {
    var vs := VariantsAt(g, f);
    var h := NextFrame(g, f, v).value.value;
    var l := FrameLine(g, f);
    WFAt(g, f.addr);
    assert ElemWF(l[f.index + 1]);
    if vs != [] {
      var s := Step(f.index + 1, PyIndex(v, |vs|));
      LineAtSnoc(g, f.addr, s);
      assert WF(vs[s.variant].line);
      assert (f.addr + [s])[..|f.addr|] == f.addr;
    }
  }

  /** What `next(v)` returns: the error it raises, `None` at the end of a line,
      or the node it moves to. */
  function NextNode(g: Line, f: Frame, v: int): (r: Result<Option<Props>>)
    requires WF(g) && FrameOk(g, f)
    ensures r.Err? <==> NextFrame(g, f, v).Err?
    ensures r.Err? ==> r.error == NextFrame(g, f, v).error
    ensures r == Ok(None) <==> NextFrame(g, f, v) == Ok(None)
    ensures r.Ok? && r.value.Some? ==>
      NextFrame(g, f, v).Ok? && NextFrame(g, f, v).value.Some? &&
      FrameOk(g, NextFrame(g, f, v).value.value) && r.value.value == NodeAt(g, NextFrame(g, f, v).value.value)
  {
    match NextFrame(g, f, v)
    case Err(e) => Err(e)
    case Ok(None) => Ok(None)
    case Ok(Some(h)) => NextLands(g, f, v); Ok(Some(NodeAt(g, h)))
  }

  /** The outcomes of `next(v)`: with a fork after the node an index past its
      branches is refused; without one any index but 0 is refused, and at the
      end of the line the cursor stays put; otherwise it moves one frame on. */
  lemma NextOutcome(g: Line, f: Frame, v: int)
    requires WF(g) && FrameOk(g, f)
    ensures var vs := VariantsAt(g, f);
      (NextFrame(g, f, v) == Err(CursorError("Invalid variant.")) <==> vs != [] && v >= |vs|) &&
      (NextFrame(g, f, v) == Err(CursorError("No variant.")) <==> vs == [] && v != 0) &&
      (NextFrame(g, f, v) == Ok(None) <==> vs == [] && v == 0 && |FrameLine(g, f)| == f.index + 1) &&
      (NextFrame(g, f, v).Ok? && NextFrame(g, f, v).value.Some? <==>
         (vs != [] && v + |vs| >= 0 && v < |vs|) || (vs == [] && v == 0 && |FrameLine(g, f)| > f.index + 1))
    ensures NextFrame(g, f, v).Ok? && NextFrame(g, f, v).value.Some? ==>
      var h := NextFrame(g, f, v).value.value;
      FrameOk(g, h) && Before(f, h) &&
      (VariantsAt(g, f) != [] ==> h == Frame(f.addr + [Step(f.index + 1, PyIndex(v, |VariantsAt(g, f)|))], 0)) &&
      (VariantsAt(g, f) == [] ==> h == Frame(f.addr, f.index + 1))
  {
    if NextFrame(g, f, v).Ok? && NextFrame(g, f, v).value.Some? {
      NextLands(g, f, v);
    }
  }

  /** Pushing the frame `next` moves to keeps the stack one a cursor can have. */
  lemma NextKeepsStack(g: Line, st: seq<Frame>, v: int)
    requires StackOk(g, st)
    requires NextFrame(g, st[|st| - 1], v).Ok? && NextFrame(g, st[|st| - 1], v).value.Some?
    ensures StackOk(g, st + [NextFrame(g, st[|st| - 1], v).value.value])
  {
    var f := st[|st| - 1];
    var h := NextFrame(g, f, v).value.value;
    NextLands(g, f, v);
    var st' := st + [h];
    forall j | 0 <= j < |st|
      ensures Before(st[j], h)
    {
      if j < |st| - 1 {
        assert Before(st[j], f);
        if st[j].addr != f.addr {
          assert h.addr[..|f.addr|] == f.addr;
          assert h.addr[..|st[j].addr|] == f.addr[..|st[j].addr|];
        }
      }
    }
    assert forall j, k :: 0 <= j < k < |st'| ==> Before(st'[j], st'[k]);
  }

  /** `add_node` on the line `l` at index `i`: the line it leaves, or the error. */
  function AddToLine(l: Line, i: nat, node: Props): (r: Result<Line>)
    requires i < |l|
    ensures r.Err? ==> r.error == CursorError("Node already exists.") && |l| > i + 1
    ensures r.Ok? ==> |r.value| > i + 1 && r.value[..i + 1] == l[..i + 1]
  {
    if |l| == i + 1 then Ok(l + [Node(node)])
    else if l[i + 1].Variants? && l[i + 1].branches != [] then
      var vs := l[i + 1].branches;
      if exists k :: 0 <= k < |vs| && |vs[k].line| > 0 && vs[k].line[0] == Node(node) then
        Err(CursorError("Node already exists."))
      else Ok(l[i + 1 := Variants(vs + [Branch([Node(node)])])])
    else if l[i + 1] == Node(node) then Err(CursorError("Node already exists."))
    else Ok(l[..i + 1] + [Variants([Branch(l[i + 1..]), Branch([Node(node)])])])
  }

  /** `add_node(node)` with the cursor at frame `f`: the tree it leaves. */
  function AddNodeTree(g: Line, f: Frame, node: Props): (r: Result<Line>)
    requires FrameOk(g, f)
    ensures r.Err? <==> AddToLine(FrameLine(g, f), f.index, node).Err?
    ensures r.Err? ==> r.error == CursorError("Node already exists.")
    ensures r.Ok? ==> LineAt(r.value, f.addr) == Some(AddToLine(FrameLine(g, f), f.index, node).value)
  {
    match AddToLine(FrameLine(g, f), f.index, node)
    case Err(e) => Err(e)
    case Ok(nl) => GetPut(g, f.addr, nl); Ok(PutLine(g, f.addr, nl))
  }

  /** The three cases of `add_node`, each with its refusal. */
  lemma AddNodeCases(g: Line, f: Frame, node: Props)
    requires WF(g) && FrameOk(g, f)
    ensures var l := FrameLine(g, f); var i := f.index; var vs := VariantsAt(g, f);
      var r := AddToLine(l, i, node);
      (|l| == i + 1 ==> r == Ok(l + [Node(node)])) &&
      (|l| > i + 1 && vs != [] ==>
        (r.Err? <==> exists k :: 0 <= k < |vs| && |vs[k].line| > 0 && vs[k].line[0] == Node(node)) &&
        (r.Err? ==> r.error == CursorError("Node already exists.")) &&
        (r.Ok? ==> r.value == l[i + 1 := Variants(vs + [Branch([Node(node)])])])) &&
      (|l| > i + 1 && vs == [] ==>
        (r.Err? <==> l[i + 1] == Node(node)) &&
        (r.Err? ==> r.error == CursorError("Node already exists.")) &&
        (r.Ok? ==> r.value == l[..i + 1] + [Variants([Branch(l[i + 1..]), Branch([Node(node)])])]))
  {
    var l := FrameLine(g, f);
    WFAt(g, f.addr);
    if |l| > f.index + 1 {
      assert ElemWF(l[f.index + 1]);
      var vs := VariantsAt(g, f);
      forall k | 0 <= k < |vs| ensures |vs[k].line| > 0 { assert WF(vs[k].line); }
    }
  }

  /** The line `add_node` leaves keeps everything up to the current node and
      stays walkable. */
  lemma AddToLineKeepsPrefix(l: Line, i: nat, node: Props)
    requires WF(l) && i < |l| && l[i].Node? && AddToLine(l, i, node).Ok?
    ensures var nl := AddToLine(l, i, node).value;
      WF(nl) && |nl| > i && nl[..i + 1] == l[..i + 1]
  {
    var nl := AddToLine(l, i, node).value;
    assert WF([Node(node)]);
    if |l| == i + 1 {
      assert forall k :: 0 <= k < |nl| ==> ElemWF(nl[k]) by {
        forall k | 0 <= k < |nl| ensures ElemWF(nl[k]) { if k < |l| { assert nl[k] == l[k]; } }
      }
    } else {
      assert ElemWF(l[i + 1]);
      if l[i + 1].Variants? && l[i + 1].branches != [] {
        var vs := l[i + 1].branches;
        assert ElemWF(Variants(vs + [Branch([Node(node)])]));
      } else {
        var tail := l[i + 1..];
        assert forall k :: 0 <= k < |tail| ==> ElemWF(tail[k]) by {
          forall k | 0 <= k < |tail| ensures ElemWF(tail[k]) { assert tail[k] == l[i + 1 + k]; }
        }
        assert WF(tail);
        assert ElemWF(Variants([Branch(tail), Branch([Node(node)])]));
        assert forall k :: 0 <= k < |nl| ==> ElemWF(nl[k]) by {
          forall k | 0 <= k < |nl| ensures ElemWF(nl[k]) { if k <= i { assert nl[k] == l[k]; } }
        }
      }
    }
  }

  /** `add_node` never moves the cursor: every frame of the stack is still at
      the same node, and the tree stays walkable. */
  lemma AddNodeKeepsStack(g: Line, st: seq<Frame>, node: Props)
    requires StackOk(g, st) && AddNodeTree(g, st[|st| - 1], node).Ok?
    ensures var g' := AddNodeTree(g, st[|st| - 1], node).value;
      StackOk(g', st) && forall k :: 0 <= k < |st| ==> NodeAt(g', st[k]) == NodeAt(g, st[k])
  {
    var f := st[|st| - 1];
    var l := FrameLine(g, f);
    WFAt(g, f.addr);
    AddToLineKeepsPrefix(l, f.index, node);
    var nl := AddToLine(l, f.index, node).value;
    var g' := PutLine(g, f.addr, nl);
    PutWF(g, f.addr, nl);
    GetPut(g, f.addr, nl);
    forall k | 0 <= k < |st|
      ensures FrameOk(g', st[k]) && NodeAt(g', st[k]) == NodeAt(g, st[k])
    {
      var x := st[k];
      if x.addr == f.addr {
        assert x.index <= f.index by { if k < |st| - 1 { assert Before(x, f); } }
        assert nl[x.index] == nl[..f.index + 1][x.index];
      } else {
        assert Before(x, f);
        PutAbove(g, f.addr, nl, x.addr);
      }
    }
  }

  /** What `add_node` changes: the line at the cursor becomes the new line, and
      every line off the path from the root to it is left as it was. */
  lemma AddNodeElsewhere(g: Line, f: Frame, node: Props, b: Addr)
    requires FrameOk(g, f) && AddNodeTree(g, f, node).Ok?
    ensures LineAt(AddNodeTree(g, f, node).value, f.addr) == Some(AddToLine(FrameLine(g, f), f.index, node).value)
    ensures !IsPrefix(b, f.addr) && !IsPrefix(f.addr, b) ==> LineAt(AddNodeTree(g, f, node).value, b) == LineAt(g, b)
  {
    var nl := AddToLine(FrameLine(g, f), f.index, node).value;
    GetPut(g, f.addr, nl);
    if !IsPrefix(b, f.addr) && !IsPrefix(f.addr, b) {
      PutAside(g, f.addr, nl, b);
    }
  }

  /** After a successful `add_node`, the last way forward leads to the new node,
      which is how the variant merge follows the node it has just added. */
  lemma AddThenNext(g: Line, f: Frame, node: Props)
    requires WF(g) && FrameOk(g, f) && AddNodeTree(g, f, node).Ok?
    ensures var g' := AddNodeTree(g, f, node).value;
      WF(g') && FrameOk(g', f) && NextNode(g', f, VariantsNum(g', f) - 1) == Ok(Some(node))
  {
    var l := FrameLine(g, f);
    WFAt(g, f.addr);
    AddToLineKeepsPrefix(l, f.index, node);
    var nl := AddToLine(l, f.index, node).value;
    var g' := PutLine(g, f.addr, nl);
    PutWF(g, f.addr, nl);
    GetPut(g, f.addr, nl);
    assert nl[f.index] == nl[..f.index + 1][f.index];
    assert FrameOk(g', f) && FrameLine(g', f) == nl;
    AddedComesLast(l, f.index, node);
    NextIntoAdded(g', f, node);
  }

  /** After `add_node` the element after the node is the new node, or a fork
      whose last branch is the new node alone. */
  lemma AddedComesLast(l: Line, i: nat, node: Props)
    requires WF(l) && i < |l| && AddToLine(l, i, node).Ok?
    ensures var nl := AddToLine(l, i, node).value;
      |nl| > i + 1 &&
      (nl[i + 1] == Node(node) ||
       (nl[i + 1].Variants? && nl[i + 1].branches != [] &&
        nl[i + 1].branches[|nl[i + 1].branches| - 1] == Branch([Node(node)])))
  {
    if |l| > i + 1 {
      assert ElemWF(l[i + 1]);
    }
  }

  /** The last way forward from `f` leads to `node` when the element after
      `f`'s node is `node` or a fork whose last branch is `node` alone. */
  lemma NextIntoAdded(g: Line, f: Frame, node: Props)
    requires WF(g) && FrameOk(g, f)
    requires var l := FrameLine(g, f);
      |l| > f.index + 1 &&
      (l[f.index + 1] == Node(node) ||
       (l[f.index + 1].Variants? && l[f.index + 1].branches != [] &&
        l[f.index + 1].branches[|l[f.index + 1].branches| - 1] == Branch([Node(node)])))
    ensures NextNode(g, f, VariantsNum(g, f) - 1) == Ok(Some(node))
  {
    var l := FrameLine(g, f);
    if l[f.index + 1].Variants? {
      var vs := l[f.index + 1].branches;
      var s := Step(f.index + 1, |vs| - 1);
      LineAtSnoc(g, f.addr, s);
      assert LineAt(g, f.addr + [s]) == Some([Node(node)]);
    }
  }

  /** The tree after a write into the dict of the node at frame `f`: the source
      hands out the dict itself, so the write lands in the game. */
  function SetNodeTree(g: Line, f: Frame, p: Props): (r: Line)
    requires FrameOk(g, f)
    ensures LineAt(r, f.addr) == Some(FrameLine(g, f)[f.index := Node(p)])
  {
    GetPut(g, f.addr, FrameLine(g, f)[f.index := Node(p)]);
    PutLine(g, f.addr, FrameLine(g, f)[f.index := Node(p)])
  }

  /** A write into one node keeps the tree walkable, keeps every frame where it
      was, and changes the properties of that frame's node only. */
  lemma SetNodeElsewhere(g: Line, f: Frame, p: Props, h: Frame)
    requires WF(g) && FrameOk(g, f) && FrameOk(g, h)
    ensures WF(SetNodeTree(g, f, p))
    ensures FrameOk(SetNodeTree(g, f, p), h)
    ensures NodeAt(SetNodeTree(g, f, p), h) == if h == f then p else NodeAt(g, h)
    ensures |VariantsAt(SetNodeTree(g, f, p), h)| == |VariantsAt(g, h)|
  {
    var l := FrameLine(g, f);
    var nl := l[f.index := Node(p)];
    var g' := SetNodeTree(g, f, p);
    WFAt(g, f.addr);
    assert WF(nl) by {
      assert forall i :: 0 <= i < |nl| ==> ElemWF(nl[i]) by {
        forall i | 0 <= i < |nl| ensures ElemWF(nl[i]) { if i != f.index { assert nl[i] == l[i]; } }
      }
    }
    PutWF(g, f.addr, nl);
    GetPut(g, f.addr, nl);
    if h.addr == f.addr {
    } else if IsPrefix(h.addr, f.addr) {
      SetNodeAbove(g, f, p, h);
    } else if IsPrefix(f.addr, h.addr) {
      SetNodeBelow(g, f, p, h);
    } else {
      PutAside(g, f.addr, nl, h.addr);
    }
  }

  /** A frame on a line that holds the written one, in a fork further down. */
  lemma SetNodeAbove(g: Line, f: Frame, p: Props, h: Frame)
    requires FrameOk(g, f) && FrameOk(g, h) && IsPrefix(h.addr, f.addr) && h.addr != f.addr
    ensures FrameOk(SetNodeTree(g, f, p), h)
    ensures NodeAt(SetNodeTree(g, f, p), h) == NodeAt(g, h)
    ensures |VariantsAt(SetNodeTree(g, f, p), h)| == |VariantsAt(g, h)|
  {
    var a, b := f.addr, h.addr;
    var nl := FrameLine(g, f)[f.index := Node(p)];
    PutAbove(g, a, nl, b);
    var e := a[|b|].elem;
    var old_ := LineAt(g, b).value;
    var new_ := LineAt(SetNodeTree(g, f, p), b).value;
    assert h.index != e;
    assert new_[h.index] == old_[h.index];
    if h.index + 1 < |old_| && h.index + 1 != e {
      assert new_[h.index + 1] == old_[h.index + 1];
    }
  }

  /** A frame inside a fork that hangs from the written line. */
  lemma SetNodeBelow(g: Line, f: Frame, p: Props, h: Frame)
    requires FrameOk(g, f) && FrameOk(g, h) && IsPrefix(f.addr, h.addr) && h.addr != f.addr
    ensures LineAt(SetNodeTree(g, f, p), h.addr) == LineAt(g, h.addr)
  {
    var a, b := f.addr, h.addr;
    var l := FrameLine(g, f);
    var nl := l[f.index := Node(p)];
    var rest := b[|a|..];
    assert b == a + rest;
    LineAtAppend(g, a, rest);
    LineAtAppend(SetNodeTree(g, f, p), a, rest);
    assert rest[0].elem < |l| && l[rest[0].elem].Variants?;
    assert rest[0].elem != f.index;
    assert nl[rest[0].elem] == l[rest[0].elem];
    assert LineAt(nl, rest) == LineAt(l, rest);
  }

  /** A write into the node at the top of a stack leaves the stack one a
      cursor can have. */
  lemma SetNodeKeepsStack(g: Line, st: seq<Frame>, p: Props)
    requires StackOk(g, st)
    ensures StackOk(SetNodeTree(g, st[|st| - 1], p), st)
  {
    var f := st[|st| - 1];
    forall k | 0 <= k < |st| ensures FrameOk(SetNodeTree(g, f, p), st[k]) {
      SetNodeElsewhere(g, f, p, st[k]);
    }
    SetNodeElsewhere(g, f, p, f);
  }

  /** `nodes_are_same_moves(fst, snd)`: both are node dicts (not a list of
      branches, not `None`) with the same `W` and the same `B`, an absent key
      counting as `None`. */
  predicate NodesAreSameMoves(fst: Option<Elem>, snd: Option<Elem>)
    ensures NodesAreSameMoves(fst, snd) <==>
      fst.Some? && fst.value.Node? && snd.Some? && snd.value.Node? &&
      ("W" in fst.value.props <==> "W" in snd.value.props) &&
      ("W" in fst.value.props ==> fst.value.props["W"] == snd.value.props["W"]) &&
      ("B" in fst.value.props <==> "B" in snd.value.props) &&
      ("B" in fst.value.props ==> fst.value.props["B"] == snd.value.props["B"])
  {
    fst.Some? && fst.value.Node? && snd.Some? && snd.value.Node? &&
    Get(fst.value.props, "W") == Get(snd.value.props, "W") &&
    Get(fst.value.props, "B") == Get(snd.value.props, "B")
  }

  /** Same moves means: the same keys among `W` and `B`, with the same values;
      the relation is an equivalence on nodes, and nothing else is related. */
  lemma SameMovesMeaning(x: Option<Elem>, y: Option<Elem>, z: Option<Elem>)
    ensures NodesAreSameMoves(x, y) <==>
      x.Some? && x.value.Node? && y.Some? && y.value.Node? &&
      (forall k :: k in {"W", "B"} ==>
        (k in x.value.props <==> k in y.value.props) &&
        (k in x.value.props ==> x.value.props[k] == y.value.props[k]))
    ensures x.Some? && x.value.Node? ==> NodesAreSameMoves(x, x)
    ensures NodesAreSameMoves(x, y) ==> NodesAreSameMoves(y, x)
    ensures NodesAreSameMoves(x, y) && NodesAreSameMoves(y, z) ==> NodesAreSameMoves(x, z)
  {
    if x.Some? && x.value.Node? && y.Some? && y.value.Node? {
      var p := x.value.props;
      var q := y.value.props;
      if forall k :: k in {"W", "B"} ==> (k in p <==> k in q) && (k in p ==> p[k] == q[k]) {
        assert "W" in {"W", "B"} && "B" in {"W", "B"};
      }
    }
  }

  /** The body of `add_node` on the line holding the cursor's node at
      `index`, whose fork after it (if any) has the branches `variants`. */
  method AddToFrameLine(line: Line, index: nat, variants: seq<Branch>, node: Props) returns (r: Result<Line>)
    requires index < |line|
    requires variants == if |line| <= index + 1 then [] else if line[index + 1].Variants? then line[index + 1].branches else []
    ensures r == AddToLine(line, index, node)
  {
    if |line| == index + 1 {
      return Ok(line + [Node(node)]);
    } else if |variants| > 0 {
      var j := 0;
      while j < |variants|
        invariant 0 <= j <= |variants|
        invariant forall k :: 0 <= k < j ==> !(|variants[k].line| > 0 && variants[k].line[0] == Node(node))
      {
        if |variants[j].line| > 0 && variants[j].line[0] == Node(node) {
          return Err(CursorError("Node already exists."));
        }
        j := j + 1;
      }
      return Ok(line[index + 1 := Variants(variants + [Branch([Node(node)])])]);
    } else {
      if line[index + 1] == Node(node) {
        return Err(CursorError("Node already exists."));
      }
      var forked := [Branch(line[index + 1..]), Branch([Node(node)])];
      var cut := line;
      while |cut| > index + 1
        invariant index + 1 <= |cut| <= |line| && cut == line[..|cut|]
      {
        cut := cut[..|cut| - 1];
      }
      return Ok(cut + [Variants(forked)]);
    }
  }

  /** `Cursor(nodes)`: refuses an empty game, otherwise stands at the root. */
  method NewCursor(nodes: Line) returns (r: Result<Cursor>)
    requires nodes == [] || WF(nodes)
    ensures r.Err? <==> nodes == []
    ensures r.Err? ==> r.error == CursorError("Empty game.")
    ensures r.Ok? ==> fresh(r.value) && r.value.Valid() && r.value.nodes == nodes && r.value.stack == [Frame([], 0)]
  {
    if |nodes| == 0 {
      return Err(CursorError("Empty game."));
    }
    var c := new Cursor(nodes);
    return Ok(c);
  }

  class Cursor {
    /** The game; the source shares this list with its caller, so whatever
        `AddNode` does to it the caller sees. */
    var nodes: Line
    var stack: seq<Frame>

    ghost predicate Valid()
      reads this
    {
      StackOk(nodes, stack)
    }

    constructor (nodes: Line)
      requires WF(nodes)
      ensures Valid() && this.nodes == nodes && stack == [Frame([], 0)]
    {
      this.nodes := nodes;
      stack := [Frame([], 0)];
    }

    function Top(): Frame
      reads this
      requires |stack| > 0
    {
      stack[|stack| - 1]
    }

    /** `get_node`. */
    function GetNode(): (p: Props)
      reads this
      requires Valid()
      ensures Node(p) == LineAt(nodes, Top().addr).value[Top().index]
      ensures |stack| == 1 ==> Node(p) == nodes[0]
    {
      NodeAt(nodes, Top())
    }

    /** `get_variants`. */
    function GetVariants(): (vs: seq<Branch>)
      reads this
      requires Valid()
      ensures var l, i := LineAt(nodes, Top().addr).value, Top().index;
        vs == if i + 1 < |l| && l[i + 1].Variants? then l[i + 1].branches else []
    {
      VariantsAt(nodes, Top())
    }

    /** `get_variants_num`. */
    function GetVariantsNum(): (n: nat)
      reads this
      requires Valid()
      ensures n >= 1
      ensures GetVariants() != [] ==> n == |GetVariants()|
      ensures GetVariants() == [] ==> n == 1
    {
      VariantsNum(nodes, Top())
    }

    /** `next(v)`. */
    method Next(v: int) returns (r: Result<Option<Props>>)
      requires Valid()
      modifies this`stack
      ensures Valid()
      ensures r == NextNode(nodes, old(Top()), v)
      ensures match NextFrame(nodes, old(Top()), v)
        case Ok(Some(h)) => stack == old(stack) + [h]
        case _ => stack == old(stack)
    {
      var f := stack[|stack| - 1];
      var line := LineAt(nodes, f.addr).value;
      var variants := GetVariants();
      if |variants| > 0 {
        if v >= |variants| {
          assert NextFrame(nodes, f, v) == Err(CursorError("Invalid variant."));
          return Err(CursorError("Invalid variant."));
        }
        if v + |variants| < 0 {
          assert NextFrame(nodes, f, v) == Err(Crash("IndexError"));
          return Err(Crash("IndexError"));
        }
        var k := if v < 0 then |variants| + v else v;
        assert NextFrame(nodes, f, v) == Ok(Some(Frame(f.addr + [Step(f.index + 1, k)], 0)));
        NextKeepsStack(nodes, stack, v);
        stack := stack + [Frame(f.addr + [Step(f.index + 1, k)], 0)];
      } else {
        if v != 0 {
          assert NextFrame(nodes, f, v) == Err(CursorError("No variant."));
          return Err(CursorError("No variant."));
        }
        if |line| <= f.index + 1 {
          assert NextFrame(nodes, f, v) == Ok(None);
          return Ok(None);
        }
        assert NextFrame(nodes, f, v) == Ok(Some(Frame(f.addr, f.index + 1)));
        NextKeepsStack(nodes, stack, v);
        stack := stack + [Frame(f.addr, f.index + 1)];
      }
      r := Ok(Some(GetNode()));
    }

    /** `previous()`: at the root nothing changes and the result is `None`;
        otherwise exactly one frame is popped. */
    method Previous() returns (r: Option<Props>)
      requires Valid()
      modifies this`stack
      ensures Valid()
      ensures |old(stack)| == 1 ==> r == None && stack == old(stack)
      ensures |old(stack)| > 1 ==> stack == old(stack)[..|old(stack)| - 1] && r == Some(GetNode())
    {
      if |stack| == 1 {
        return None;
      }
      stack := stack[..|stack| - 1];
      r := Some(GetNode());
    }

    /** `get_next(v)`: what `next(v)` returns; the step is undone only when
        the node reached is not empty. */
    method GetNext(v: int) returns (r: Result<Option<Props>>)
      requires Valid()
      modifies this`stack
      ensures Valid()
      ensures r == NextNode(nodes, old(Top()), v)
      ensures r.Ok? && r.value.Some? && r.value.value == map[] ==>
        stack == old(stack) + [NextFrame(nodes, old(Top()), v).value.value]
      ensures !(r.Ok? && r.value.Some? && r.value.value == map[]) ==> stack == old(stack)
    {
      r := Next(v);
      if r.Ok? && r.value.Some? && r.value.value != map[] {
        var _ := Previous();
      }
    }

    /** `node = get_node(); node[key] = value`: the dict `get_node` returns
        is the one in the tree, so a write into it changes the game the cursor
        walks. */
    method WriteNode(p: Props)
      requires Valid()
      modifies this`nodes
      ensures Valid() && nodes == SetNodeTree(old(nodes), Top(), p)
      ensures forall k :: 0 <= k < |stack| - 1 ==> NodeAt(nodes, stack[k]) == NodeAt(old(nodes), stack[k])
      ensures GetNode() == p
    {
      SetNodeKeepsStack(nodes, stack, p);
      ghost var g := nodes;
      nodes := SetNodeTree(nodes, Top(), p);
      forall k | 0 <= k < |stack| - 1
        ensures NodeAt(nodes, stack[k]) == NodeAt(g, stack[k])
      {
        SetNodeElsewhere(g, Top(), p, stack[k]);
        assert Before(stack[k], Top());
      }
      SetNodeElsewhere(g, Top(), p, Top());
    }

    /** `add_node(node)`: grows the tree at the cursor as `AddNodeTree` says and
        leaves the cursor where it was. */
    method AddNode(node: Props) returns (r: Result<()>)
      requires Valid()
      modifies this`nodes
      ensures Valid()
      ensures match AddNodeTree(old(nodes), Top(), node)
        case Err(e) => r == Err(e) && nodes == old(nodes)
        case Ok(g) => r == Ok(()) && nodes == g
      ensures forall k :: 0 <= k < |stack| ==> NodeAt(nodes, stack[k]) == NodeAt(old(nodes), stack[k])
    {
      var f := stack[|stack| - 1];
      var variants := GetVariants();
      var added := AddToFrameLine(LineAt(nodes, f.addr).value, f.index, variants, node);
      if added.Err? {
        return Err(added.error);
      }
      AddNodeKeepsStack(nodes, stack, node);
      nodes := PutLine(nodes, f.addr, added.value);
      r := Ok(());
    }
  }
}
