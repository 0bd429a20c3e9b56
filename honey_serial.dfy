/** `node_to_sgf`, `makeSgf` and `_makeSgfFromCursor` of honey/sgf.py: the
    collection written back as SGF text, walking each game with a cursor. */
module HoneySerial {
  import opened SgfBase
  import opened HoneyTree
  import opened HoneyCursor

  /** `"%s[%s]" % (key, value)`. */
  function Render(k: string, v: string): string
  {
    k + "[" + v + "]"
  }

  /** The order `sorted` puts the rendered properties in; two properties that
      render the same are ordered by name, which does not change the text. */
  predicate ItemBefore(p: Props, a: string, b: string)
    requires a in p && b in p
  {
    Less(Render(a, p[a]), Render(b, p[b])) || (Render(a, p[a]) == Render(b, p[b]) && Less(a, b))
  }

  lemma ItemAsymmetric(p: Props, a: string, b: string)
    requires a in p && b in p && ItemBefore(p, a, b)
    ensures !ItemBefore(p, b, a)
  {
    LessIrreflexive(Render(a, p[a]));
    if Less(Render(a, p[a]), Render(b, p[b])) {
      LessAsymmetric(Render(a, p[a]), Render(b, p[b]));
    } else {
      LessAsymmetric(a, b);
    }
  }

  lemma ItemTransitive(p: Props, a: string, b: string, c: string)
    requires a in p && b in p && c in p && ItemBefore(p, a, b) && ItemBefore(p, b, c)
    ensures ItemBefore(p, a, c)
  {
    var ra, rb, rc := Render(a, p[a]), Render(b, p[b]), Render(c, p[c]);
    if Less(ra, rb) && Less(rb, rc) {
      LessTransitive(ra, rb, rc);
    } else if ra == rb && rb == rc {
      LessTransitive(a, b, c);
    }
  }

  lemma ItemTotal(p: Props, a: string, b: string)
    requires a in p && b in p && a != b
    ensures ItemBefore(p, a, b) || ItemBefore(p, b, a)
  {
    LessTotal(Render(a, p[a]), Render(b, p[b]));
    LessTotal(a, b);
  }

  /** `k` comes first among the properties of `p`. */
  predicate IsLeast(p: Props, k: string)
  {
    k in p && forall j :: j in p && j != k ==> ItemBefore(p, k, j)
  }

  lemma {:induction false} LeastExists(p: Props)
    requires p != map[]
    ensures exists k :: IsLeast(p, k)
    decreases |p|
  {
    var k0 :| k0 in p;
    var q := p - {k0};
    assert q.Keys == p.Keys - {k0};
    assert forall j :: j in q ==> q[j] == p[j];
    if q == map[] {
      assert q.Keys == {};
      assert p.Keys == {k0};
      assert IsLeast(p, k0);
    } else {
      LeastExists(q);
      var k1 :| IsLeast(q, k1);
      ItemTotal(p, k0, k1);
      if ItemBefore(p, k0, k1) {
        forall j | j in p && j != k0
          ensures ItemBefore(p, k0, j)
        {
          if j != k1 {
            assert j in q && ItemBefore(q, k1, j);
            ItemTransitive(p, k0, k1, j);
          }
        }
        assert IsLeast(p, k0);
      } else {
        forall j | j in p && j != k1
          ensures ItemBefore(p, k1, j)
        {
          if j != k0 {
            assert j in q && ItemBefore(q, k1, j);
          }
        }
        assert IsLeast(p, k1);
      }
    }
  }

  lemma LeastUnique(p: Props, a: string, b: string)
    requires IsLeast(p, a) && IsLeast(p, b)
    ensures a == b
  {
    if a != b {
      ItemAsymmetric(p, a, b);
    }
  }

  /** The names of `q` in order, with a name that comes before all of them put
      first, are the names of `q` and that one in order. */
  lemma PrependLeast(p: Props, k: string, rest: seq<string>)
    requires IsLeast(p, k)
    requires var q := p - {k};
      (forall i :: 0 <= i < |rest| ==> rest[i] in q) &&
      (forall j :: j in q ==> j in rest) &&
      (forall i, j :: 0 <= i < j < |rest| ==> ItemBefore(q, rest[i], rest[j]))
    ensures var ks := [k] + rest;
      (forall i :: 0 <= i < |ks| ==> ks[i] in p) &&
      (forall j :: j in p ==> j in ks) &&
      (forall i, j :: 0 <= i < j < |ks| ==> ItemBefore(p, ks[i], ks[j]))
  {
    var q := p - {k};
    var ks := [k] + rest;
    assert forall j :: j in q ==> q[j] == p[j];
    forall i, j | 0 <= i < j < |ks|
      ensures ItemBefore(p, ks[i], ks[j])
    {
      assert ks[j] == rest[j - 1] && ks[j] in q;
      if i > 0 {
        assert ks[i] == rest[i - 1] && ItemBefore(q, rest[i - 1], rest[j - 1]);
      }
    }
    forall j | j in p
      ensures j in ks
    {
      if j != k {
        assert j in q;
      }
    }
  }

  /** The property names of a node in the order `node_to_sgf` writes them;
      `SortedKeysOrder` states that order. */
  function SortedKeys(p: Props): (ks: seq<string>)
    ensures |ks| == |p|
    ensures forall i :: 0 <= i < |ks| ==> ks[i] in p
    decreases |p|
  {
    if p == map[] then []
    else
      LeastChosen(p);
      var k :| IsLeast(p, k);
      RemoveKey(p, k);
      var rest := SortedKeys(p - {k});
      [k] + rest
  }

  /** A non-empty node has exactly one least property name. */
  lemma LeastChosen(p: Props)
    requires p != map[]
    ensures exists k :: IsLeast(p, k)
    ensures forall a, b :: IsLeast(p, a) && IsLeast(p, b) ==> a == b
  {
    LeastExists(p);
    forall a, b | IsLeast(p, a) && IsLeast(p, b)
      ensures a == b
    {
      LeastUnique(p, a, b);
    }
  }

  lemma RemoveKey(p: Props, k: string)
    requires k in p
    ensures (p - {k}).Keys == p.Keys - {k} && |p - {k}| == |p| - 1
    ensures forall j :: j in p - {k} ==> j in p
  {
    assert (p - {k}).Keys == p.Keys - {k};
  }

  /** `node_to_sgf` writes every property of the node exactly once, in the
      order `sorted` puts the rendered properties in. */
  lemma {:induction false} SortedKeysOrder(p: Props)
    ensures var ks := SortedKeys(p);
      (forall k :: k in p ==> k in ks) &&
      (forall i, j :: 0 <= i < j < |ks| ==> ItemBefore(p, ks[i], ks[j]))
    decreases |p|
  {
    if p != map[] {
      var ks := SortedKeys(p);
      var k := ks[0];
      var q := p - {k};
      assert IsLeast(p, k) && ks[1..] == SortedKeys(q);
      assert q.Keys == p.Keys - {k};
      SortedKeysOrder(q);
      PrependLeast(p, k, ks[1..]);
      assert ks == [k] + ks[1..];
    }
  }

  /** The least property name is written first, then the rest in order. */
  lemma LeastFirst(p: Props, k: string)
    requires IsLeast(p, k)
    ensures SortedKeys(p) == [k] + SortedKeys(p - {k})
  {
    var ks := SortedKeys(p);
    assert p != map[] by {
      assert k in p;
    }
    LeastChosen(p);
    assert IsLeast(p, ks[0]) && ks[1..] == SortedKeys(p - {ks[0]});
    assert ks == [ks[0]] + ks[1..];
  }

  /** The order of one, two and three properties, as `sorted` puts them. */
  lemma OneKey(p: Props, a: string)
    requires p.Keys == {a}
    ensures SortedKeys(p) == [a]
  {
    assert IsLeast(p, a);
    LeastFirst(p, a);
    assert p - {a} == map[];
  }

  lemma TwoKeys(p: Props, a: string, b: string)
    requires p.Keys == {a, b} && ItemBefore(p, a, b)
    ensures SortedKeys(p) == [a, b]
  {
    assert a != b by {
      ItemIrreflexive(p, a);
    }
    assert IsLeast(p, a);
    LeastFirst(p, a);
    OneKey(p - {a}, b);
  }

  lemma ThreeKeys(p: Props, a: string, b: string, c: string)
    requires p.Keys == {a, b, c} && ItemBefore(p, a, b) && ItemBefore(p, b, c)
    ensures SortedKeys(p) == [a, b, c]
  {
    ItemTransitive(p, a, b, c);
    assert IsLeast(p, a) by {
      ItemIrreflexive(p, a);
    }
    LeastFirst(p, a);
    DropLeast(p, a, b, c);
    TwoKeys(p - {a}, b, c);
  }

  lemma DropLeast(p: Props, a: string, b: string, c: string)
    requires p.Keys == {a, b, c} && ItemBefore(p, a, b) && ItemBefore(p, b, c) && ItemBefore(p, a, c)
    ensures (p - {a}).Keys == {b, c} && ItemBefore(p - {a}, b, c)
  {
    assert a != b && a != c by {
      ItemIrreflexive(p, a);
    }
    var q := p - {a};
    assert q[b] == p[b] && q[c] == p[c];
  }

  lemma ItemIrreflexive(p: Props, a: string)
    requires a in p
    ensures !ItemBefore(p, a, a)
  {
    LessIrreflexive(Render(a, p[a]));
    LessIrreflexive(a);
  }

  /** The rendered properties named by `ks`, one after another. */
  function PropsText(p: Props, ks: seq<string>): string
    requires forall i :: 0 <= i < |ks| ==> ks[i] in p
  {
    if ks == [] then "" else Render(ks[0], p[ks[0]]) + PropsText(p, ks[1..])
  }

  /** `node_to_sgf(node)`. */
  function NodeToSgf(p: Props): (r: string)
    ensures |r| >= 1 && r[0] == ';'
  {
    ";" + PropsText(p, SortedKeys(p))
  }

  /** What `_makeSgfFromCursor` writes for a cursor standing at element `i`
      of line `l`: nothing for an empty node, otherwise the parenthesised
      walk from there. */
  function SerFrom(l: Line, i: nat): string
    requires WF(l) && i < |l| && l[i].Node?
    decreases l, |l| - i + 1
  {
    if l[i].props == map[] then "" else "(" + SerLine(l, i) + ")"
  }

  /** The walk of the loop: the node, then the next node of the line, the
      only branch of a one-branch fork (without parentheses), or each branch
      of a fork in turn. It ends at the end of a line or at an empty node. */
  function SerLine(l: Line, i: nat): string
    requires WF(l) && i < |l| && l[i].Node?
    decreases l, |l| - i, 1
  {
    NodeToSgf(l[i].props) + SerAfter(l, i)
  }

  /** What the walk writes after the node at `i`. */
  function SerAfter(l: Line, i: nat): string
    requires WF(l) && i < |l| && l[i].Node?
    decreases l, |l| - i, 0
  {
    if i + 1 == |l| then ""
    else match l[i + 1]
      case Node(p) => if p == map[] then "" else SerLine(l, i + 1)
      case Variants(bs) =>
        assert ElemWF(l[i + 1]);
        if |bs| == 1 then (assert WF(bs[0].line); if bs[0].line[0].props == map[] then "" else SerLine(bs[0].line, 0))
        else SerBranches(bs, 0)
  }

  function SerBranches(bs: seq<Branch>, j: nat): string
    requires j <= |bs| && forall k :: 0 <= k < |bs| ==> WF(bs[k].line)
    decreases bs, |bs| - j
  {
    if j == |bs| then "" else SerFrom(bs[j].line, 0) + SerBranches(bs, j + 1)
  }

  /** Every game is empty or walkable. */
  predicate Walkable(coll: seq<Line>)
  {
    forall i :: 0 <= i < |coll| ==> coll[i] == [] || WF(coll[i])
  }

  /** `makeSgf(coll)`: the games one after another; an empty game makes the
      cursor raise "Empty game.". */
  function MakeSgf(coll: seq<Line>): (r: Result<string>)
    requires Walkable(coll)
    ensures r.Err? <==> exists i :: 0 <= i < |coll| && coll[i] == []
    ensures r.Err? ==> r.error == CursorError("Empty game.")
  {
    if coll == [] then Ok("")
    else if coll[0] == [] then Err(CursorError("Empty game."))
    else
      match MakeSgf(coll[1..])
      case Err(e) =>
        assert exists i :: 0 <= i < |coll[1..]| && coll[1..][i] == [];
        Err(e)
      case Ok(rest) =>
        assert forall i :: 1 <= i < |coll| ==> coll[i] == coll[1..][i - 1];
        Ok(SerFrom(coll[0], 0) + rest)
  }

  function SerGames(coll: seq<Line>): string
    requires forall i :: 0 <= i < |coll| ==> WF(coll[i])
  {
    if coll == [] then "" else SerFrom(coll[0], 0) + SerGames(coll[1..])
  }

  /** With no empty game, `makeSgf` is the games written one after another. */
  lemma {:induction false} MakeSgfGames(coll: seq<Line>)
    requires forall i :: 0 <= i < |coll| ==> WF(coll[i])
    ensures MakeSgf(coll) == Ok(SerGames(coll))
  {
    if coll != [] {
      MakeSgfGames(coll[1..]);
    }
  }

  /** One turn of the walk at a node with at most one way on: `next(0)`
      succeeds, and the walk goes on from the node it reaches unless that node
      is missing or empty. */
  lemma WalkOn(g: Line, f: Frame)
    requires WF(g) && FrameOk(g, f) && WF(FrameLine(g, f)) && VariantsNum(g, f) == 1
    ensures NextFrame(g, f, 0).Ok?
    ensures NextFrame(g, f, 0) == Ok(None) ==> SerLine(FrameLine(g, f), f.index) == NodeToSgf(NodeAt(g, f))
    ensures NextFrame(g, f, 0).Ok? && NextFrame(g, f, 0).value.Some? ==>
      var h := NextFrame(g, f, 0).value.value;
      FrameOk(g, h) && WF(FrameLine(g, h)) &&
      SerLine(FrameLine(g, f), f.index) ==
        NodeToSgf(NodeAt(g, f)) + (if NodeAt(g, h) == map[] then "" else SerLine(FrameLine(g, h), h.index))
  {
    var l := FrameLine(g, f);
    var i := f.index;
    if i + 1 < |l| {
      assert ElemWF(l[i + 1]);
      if l[i + 1].Variants? {
        WalkIntoLoneBranch(g, f);
      } else {
        WalkToNextNode(g, f);
      }
    } else {
      assert NextFrame(g, f, 0) == Ok(None);
    }
  }

  /** `WalkOn` where a fork of one branch follows the node. */
  lemma WalkIntoLoneBranch(g: Line, f: Frame)
    requires WF(g) && FrameOk(g, f) && WF(FrameLine(g, f)) && VariantsNum(g, f) == 1
    requires f.index + 1 < |FrameLine(g, f)| && FrameLine(g, f)[f.index + 1].Variants?
    ensures var h := Frame(f.addr + [Step(f.index + 1, 0)], 0);
      NextFrame(g, f, 0) == Ok(Some(h)) && FrameOk(g, h) && WF(FrameLine(g, h)) &&
      SerLine(FrameLine(g, f), f.index) ==
        NodeToSgf(NodeAt(g, f)) + (if NodeAt(g, h) == map[] then "" else SerLine(FrameLine(g, h), h.index))
  {
    var l := FrameLine(g, f);
    var i := f.index;
    assert ElemWF(l[i + 1]);
    var bs := l[i + 1].branches;
    assert |bs| == 1 && WF(bs[0].line);
    var h := Frame(f.addr + [Step(i + 1, 0)], 0);
    assert NextFrame(g, f, 0) == Ok(Some(h));
    LineAtSnoc(g, f.addr, Step(i + 1, 0));
    assert FrameLine(g, h) == bs[0].line;
    assert SerAfter(l, i) == if bs[0].line[0].props == map[] then "" else SerLine(bs[0].line, 0);
  }

  /** `WalkOn` where another node follows the node. */
  lemma WalkToNextNode(g: Line, f: Frame)
    requires WF(g) && FrameOk(g, f) && WF(FrameLine(g, f))
    requires f.index + 1 < |FrameLine(g, f)| && FrameLine(g, f)[f.index + 1].Node?
    ensures var h := Frame(f.addr, f.index + 1);
      NextFrame(g, f, 0) == Ok(Some(h)) && FrameOk(g, h) && WF(FrameLine(g, h)) &&
      SerLine(FrameLine(g, f), f.index) ==
        NodeToSgf(NodeAt(g, f)) + (if NodeAt(g, h) == map[] then "" else SerLine(FrameLine(g, h), h.index))
  {
    var l := FrameLine(g, f);
    var i := f.index;
    var h := Frame(f.addr, i + 1);
    assert NextFrame(g, f, 0) == Ok(Some(h));
    assert SerAfter(l, i) == if l[i + 1].props == map[] then "" else SerLine(l, i + 1);
  }

  /** At a fork of several branches the walk writes each branch in turn, and
      `next(k)` enters branch `k`. */
  lemma WalkFork(g: Line, f: Frame)
    requires WF(g) && FrameOk(g, f) && WF(FrameLine(g, f)) && VariantsNum(g, f) > 1
    ensures var vs := VariantsAt(g, f);
      (forall k :: 0 <= k < |vs| ==> WF(vs[k].line)) &&
      SerLine(FrameLine(g, f), f.index) == NodeToSgf(NodeAt(g, f)) + SerBranches(vs, 0)
  {
    var l := FrameLine(g, f);
    assert ElemWF(l[f.index + 1]);
  }

  lemma EnterBranch(g: Line, f: Frame, k: nat)
    requires WF(g) && FrameOk(g, f) && WF(FrameLine(g, f)) && k < |VariantsAt(g, f)|
    ensures var h := Frame(f.addr + [Step(f.index + 1, k)], 0);
      NextFrame(g, f, k) == Ok(Some(h)) && FrameOk(g, h) && FrameLine(g, h) == VariantsAt(g, f)[k].line
  {
    NextOutcome(g, f, k);
    LineAtSnoc(g, f.addr, Step(f.index + 1, k));
  }

  /** Writing the branches of a fork one at a time: after the first `j` and
      branch `j`, the rest of the text is that of the branches after `j`. */
  lemma BranchesSoFar(bs: seq<Branch>, j: nat, sgf: string)
    requires j < |bs| && forall k :: 0 <= k < |bs| ==> WF(bs[k].line)
    requires SerBranches(bs, 0) == sgf + SerBranches(bs, j)
    ensures SerBranches(bs, 0) == (sgf + SerFrom(bs[j].line, 0)) + SerBranches(bs, j + 1)
    ensures |SerFrom(bs[j].line, 0)| <= |SerBranches(bs, 0)|
  {
    var sub := SerFrom(bs[j].line, 0);
    assert SerBranches(bs, j) == sub + SerBranches(bs, j + 1);
    assert sgf + (sub + SerBranches(bs, j + 1)) == (sgf + sub) + SerBranches(bs, j + 1);
  }

  /** `_makeSgfFromCursor(cursor)`, with the cursor put back where it was by
      popping back to the depth it had on entry. */
  method MakeSgfFromCursor(c: Cursor) returns (sgf: string)
    requires c.Valid()
    requires WF(FrameLine(c.nodes, c.Top()))  // implied by Valid(), see WFAt
    modifies c`stack
    ensures c.Valid() && c.stack == old(c.stack)
    ensures sgf == SerFrom(FrameLine(c.nodes, c.Top()), c.Top().index)
    decreases |SerFrom(FrameLine(c.nodes, c.Top()), c.Top().index)|, 0
  {
    var begin := c.GetNode();
    if begin == map[] {
      return "";
    }
    var entry := |c.stack|;
    ghost var st0 := c.stack;
    var body := Walk(c);
    while |c.stack| > entry
      invariant c.Valid() && |c.stack| >= |st0| && c.stack[..|st0|] == st0
      decreases |c.stack|
    {
      var _ := c.Previous();
    }
    sgf := "(" + body + ")";
  }

  /** The `while not finished` loop of `_makeSgfFromCursor`: it writes the
      walk from the cursor's node and leaves the cursor where the walk ended,
      somewhere below where it started. */
  method Walk(c: Cursor) returns (sgf: string)
    requires c.Valid() && WF(FrameLine(c.nodes, c.Top()))
    modifies c`stack
    ensures c.Valid() && |c.stack| >= |old(c.stack)| && c.stack[..|old(c.stack)|] == old(c.stack)
    ensures sgf == SerLine(FrameLine(c.nodes, old(c.Top())), old(c.Top()).index)
    decreases |SerLine(FrameLine(c.nodes, c.Top()), c.Top().index)|, 2
  {
    ghost var st0 := c.stack;
    ghost var total := SerLine(FrameLine(c.nodes, c.Top()), c.Top().index);
    sgf := "";
    var finished := false;
    while !finished
      invariant c.Valid() && |c.stack| >= |st0| && c.stack[..|st0|] == st0
      invariant !finished ==>
        WF(FrameLine(c.nodes, c.Top())) && total == sgf + SerLine(FrameLine(c.nodes, c.Top()), c.Top().index)
      invariant finished ==> sgf == total
      decreases if finished then 0 else 1 + |SerLine(FrameLine(c.nodes, c.Top()), c.Top().index)|
    {
      ghost var st := c.stack;
      ghost var rest := SerLine(FrameLine(c.nodes, c.Top()), c.Top().index);
      var piece;
      piece, finished := WalkStep(c);
      assert c.stack[..|st0|] == st[..|st0|];
      if finished {
        assert total == sgf + piece;
      } else {
        ghost var rest' := SerLine(FrameLine(c.nodes, c.Top()), c.Top().index);
        assert rest == piece + rest' && |rest'| < |rest|;
        assert sgf + (piece + rest') == (sgf + piece) + rest';
      }
      sgf := sgf + piece;
    }
  }

  /** One turn of that loop: the node is written, then the cursor moves on
      along the line or into a one-branch fork, or the branches of a fork
      are written in turn and the walk is finished. */
  method WalkStep(c: Cursor) returns (piece: string, finished: bool)
    requires c.Valid() && WF(FrameLine(c.nodes, c.Top()))
    modifies c`stack
    ensures c.Valid() && |c.stack| >= |old(c.stack)| && c.stack[..|old(c.stack)|] == old(c.stack)
    ensures |piece| >= 1
    ensures finished ==> piece == SerLine(FrameLine(c.nodes, old(c.Top())), old(c.Top()).index)
    ensures !finished ==>
      WF(FrameLine(c.nodes, c.Top())) &&
      SerLine(FrameLine(c.nodes, old(c.Top())), old(c.Top()).index) == piece + SerLine(FrameLine(c.nodes, c.Top()), c.Top().index)
    decreases |SerLine(FrameLine(c.nodes, c.Top()), c.Top().index)|, 1
  {
    var n := c.GetVariantsNum();
    if n == 1 {
      piece, finished := StepAlong(c);
    } else {
      ghost var f := c.Top();
      var node := c.GetNode();
      WalkFork(c.nodes, f);
      var rest := WriteVariants(c, c.GetVariants());
      piece := NodeToSgf(node) + rest;
      finished := true;
    }
  }

  /** That turn where one way leads on: the node is written and the cursor
      takes `next(0)`; the walk is finished at the end of the line or at an
      empty node. */
  method StepAlong(c: Cursor) returns (piece: string, finished: bool)
    requires c.Valid() && WF(FrameLine(c.nodes, c.Top())) && VariantsNum(c.nodes, c.Top()) == 1
    modifies c`stack
    ensures c.Valid() && |c.stack| >= |old(c.stack)| && c.stack[..|old(c.stack)|] == old(c.stack)
    ensures |piece| >= 1
    ensures finished ==> piece == SerLine(FrameLine(c.nodes, old(c.Top())), old(c.Top()).index)
    ensures !finished ==>
      WF(FrameLine(c.nodes, c.Top())) &&
      SerLine(FrameLine(c.nodes, old(c.Top())), old(c.Top()).index) == piece + SerLine(FrameLine(c.nodes, c.Top()), c.Top().index)
  {
    ghost var f := c.Top();
    ghost var st := c.stack;
    var node := c.GetNode();
    piece := NodeToSgf(node);
    WalkOn(c.nodes, f);
    var r := c.Next(0);
    finished := !(r.Ok? && r.value.Some? && r.value.value != map[]);
    if !finished {
      ghost var h := NextFrame(c.nodes, f, 0).value.value;
      assert c.stack == st + [h] && c.Top() == h;
      assert c.stack[..|st|] == st;
    }
  }

  /** The `for index in xrange(variants_num)` loop of `_makeSgfFromCursor`:
      each branch of the fork after the cursor's node written in turn, the
      cursor back where it was after each. */
  method WriteVariants(c: Cursor, ghost vs: seq<Branch>) returns (sgf: string)
    requires c.Valid() && WF(FrameLine(c.nodes, c.Top())) && VariantsNum(c.nodes, c.Top()) > 1
    requires vs == VariantsAt(c.nodes, c.Top()) && forall k :: 0 <= k < |vs| ==> WF(vs[k].line)
    modifies c`stack
    ensures c.Valid() && c.stack == old(c.stack)
    ensures sgf == SerBranches(vs, 0)
    decreases |SerBranches(vs, 0)|, 2
  {
    var n := c.GetVariantsNum();
    ghost var st := c.stack;
    sgf := "";
    var index := 0;
    while index < n
      invariant 0 <= index <= n == |vs|
      invariant c.Valid() && c.stack == st
      invariant SerBranches(vs, 0) == sgf + SerBranches(vs, index)
    {
      BranchesSoFar(vs, index, sgf);
      var sub := WriteBranch(c, vs, index);
      sgf := sgf + sub;
      index := index + 1;
    }
  }

  /** One turn of that loop: `next(index)` into branch `index`, the branch
      written, and `previous()` back to the fork. */
  method WriteBranch(c: Cursor, ghost vs: seq<Branch>, index: nat) returns (sub: string)
    requires c.Valid() && WF(FrameLine(c.nodes, c.Top())) && vs == VariantsAt(c.nodes, c.Top())
    requires index < |vs| && WF(vs[index].line)
    modifies c`stack
    ensures c.Valid() && c.stack == old(c.stack)
    ensures sub == SerFrom(vs[index].line, 0)
    decreases |SerFrom(vs[index].line, 0)|, 1
  {
    ghost var f := c.Top();
    EnterBranch(c.nodes, f, index);
    var _ := c.Next(index);
    sub := MakeSgfFromCursor(c);
    var _ := c.Previous();
  }

  lemma {:induction false} SerGamesAppend(a: seq<Line>, b: seq<Line>)
    requires forall i :: 0 <= i < |a| ==> WF(a[i])
    requires forall i :: 0 <= i < |b| ==> WF(b[i])
    ensures SerGames(a + b) == SerGames(a) + SerGames(b)
  {
    if a == [] {
      assert a + b == b;
    } else {
      assert (a + b)[0] == a[0] && (a + b)[1..] == a[1..] + b;
      SerGamesAppend(a[1..], b);
    }
  }

  /** `_makeSgfFromCursor(Cursor(game))`: the text of one game, or the
      error the cursor raises on an empty one. */
  method WriteGame(game: Line) returns (r: Result<string>)
    requires game == [] || WF(game)
    ensures r.Err? <==> game == []
    ensures r.Err? ==> r.error == CursorError("Empty game.")
    ensures r.Ok? ==> r.value == SerFrom(game, 0)
  {
    var cursor := NewCursor(game);
    if cursor.Err? {
      return Err(cursor.error);
    }
    var s := MakeSgfFromCursor(cursor.value);
    return Ok(s);
  }

  /** The text of the first `i + 1` games is that of the first `i`, then
      that of game `i`. */
  lemma SerGamesSnoc(coll: seq<Line>, i: nat)
    requires i < |coll| && forall k :: 0 <= k <= i ==> WF(coll[k])
    ensures SerGames(coll[..i + 1]) == SerGames(coll[..i]) + SerFrom(coll[i], 0)
  {
    assert SerGames([coll[i]]) == SerFrom(coll[i], 0);
    SerGamesAppend(coll[..i], [coll[i]]);
    assert coll[..i + 1] == coll[..i] + [coll[i]];
  }

  /** `makeSgf(coll)`: a cursor per game, each game's text appended. */
  method WriteCollection(coll: seq<Line>) returns (r: Result<string>)
    requires Walkable(coll)
    ensures r == MakeSgf(coll)
  {
    var sgf := "";
    var i := 0;
    while i < |coll|
      invariant 0 <= i <= |coll|
      invariant forall k :: 0 <= k < i ==> WF(coll[k])
      invariant sgf == SerGames(coll[..i])
    {
      var s := WriteGame(coll[i]);
      if s.Err? {
        return Err(s.error);
      }
      SerGamesSnoc(coll, i);
      sgf := sgf + s.value;
      i := i + 1;
    }
    assert coll[..i] == coll;
    MakeSgfGames(coll);
    r := Ok(sgf);
  }

  /** The unrolling loop as the source writes it, `while cursor.get_node() !=
      begin: cursor.previous()`, on the nodes `ns` of the stack's frames: the
      number of frames it keeps. It pops until the current node is EQUAL to
      the node the walk began at, which need not be the frame it began at. */
  function UnrollByValue(ns: seq<Props>, begin: Props): (n: nat)
    requires begin in ns
    ensures 0 < n <= |ns| && ns[n - 1] == begin
    ensures forall k :: n <= k < |ns| ==> ns[k] != begin
    decreases |ns|
  {
    if ns[|ns| - 1] == begin then |ns|
    else
      assert begin in ns[..|ns| - 1] by {
        var k :| 0 <= k < |ns| && ns[k] == begin;
        assert ns[..|ns| - 1][k] == begin;
      }
      UnrollByValue(ns[..|ns| - 1], begin)
  }

  /** The nodes the frames of a stack are at, the root's first. */
  function NodesOf(g: Line, st: seq<Frame>): (ns: seq<Props>)
    requires forall k :: 0 <= k < |st| ==> FrameOk(g, st[k])
    ensures |ns| == |st| && forall k :: 0 <= k < |st| ==> ns[k] == NodeAt(g, st[k])
  {
    seq(|st|, k requires 0 <= k < |st| => NodeAt(g, st[k]))
  }

  /** A game whose first variation repeats its first move later on. */
  const Repeating: Line := [
    Node(map["GM" := "1"]),
    Variants([Branch([Node(map["B" := "tt"]), Node(map["W" := "tt"]), Node(map["B" := "tt"])]),
              Branch([Node(map["B" := "aa"])])])]

  /** On `(;GM[1](;B[tt];W[tt];B[tt])(;B[aa]))` the walk of the first variation
      runs from its first node to its last, which holds the same move. The
      unrolling as written stops there at once instead of going back to the
      first node, so the caller's `previous()` leaves the cursor on `W[tt]`,
      and `next(1)` for the second variation raises "No variant.", although
      the game can be written (`MakeSgf` succeeds on it). */
  lemma UnrollStopsEarly()
    ensures WF(Repeating)
    ensures MakeSgf([Repeating]).Ok?
    ensures var s0 := Step(1, 0);
      var walked := [Frame([], 0), Frame([s0], 0), Frame([s0], 1), Frame([s0], 2)];
      (forall k :: 0 <= k < |walked| ==> FrameOk(Repeating, walked[k])) &&
      NextFrame(Repeating, walked[0], 0) == Ok(Some(walked[1])) &&
      NextFrame(Repeating, walked[1], 0) == Ok(Some(walked[2])) &&
      NextFrame(Repeating, walked[2], 0) == Ok(Some(walked[3])) &&
      NextFrame(Repeating, walked[3], 0) == Ok(None) &&
      NodeAt(Repeating, walked[1]) in NodesOf(Repeating, walked) &&
      UnrollByValue(NodesOf(Repeating, walked), NodeAt(Repeating, walked[1])) == |walked| &&
      NextFrame(Repeating, walked[2], 1) == Err(CursorError("No variant."))
  {
    RepeatingShape();
    RepeatingWalk();
    var s0 := Step(1, 0);
    var walked := [Frame([], 0), Frame([s0], 0), Frame([s0], 1), Frame([s0], 2)];
    var ns := NodesOf(Repeating, walked);
    assert ns[3] == ns[1] && ns[1] in ns;
    assert UnrollByValue(ns, ns[1]) == |walked|;
  }

  /** The walk down the first variation of the game above, and the refused
      `next(1)` from its second node. */
  lemma RepeatingWalk()
    ensures var s0 := Step(1, 0);
      var walked := [Frame([], 0), Frame([s0], 0), Frame([s0], 1), Frame([s0], 2)];
      (forall k :: 0 <= k < |walked| ==> FrameOk(Repeating, walked[k])) &&
      NextFrame(Repeating, walked[0], 0) == Ok(Some(walked[1])) &&
      NextFrame(Repeating, walked[1], 0) == Ok(Some(walked[2])) &&
      NextFrame(Repeating, walked[2], 0) == Ok(Some(walked[3])) &&
      NextFrame(Repeating, walked[3], 0) == Ok(None) &&
      NextFrame(Repeating, walked[2], 1) == Err(CursorError("No variant."))
  {
    RepeatingShape();
    var s0 := Step(1, 0);
    var walked := [Frame([], 0), Frame([s0], 0), Frame([s0], 1), Frame([s0], 2)];
    assert [] + [s0] == [s0];
    assert forall k :: 0 <= k < |walked| ==> FrameOk(Repeating, walked[k]);
    assert NextFrame(Repeating, walked[0], 0) == Ok(Some(walked[1]));
    assert NextFrame(Repeating, walked[1], 0) == Ok(Some(walked[2]));
    assert NextFrame(Repeating, walked[2], 0) == Ok(Some(walked[3]));
    assert NextFrame(Repeating, walked[3], 0) == Ok(None);
  }

  /** The game above is well formed, so it can be written, and its first
      variation is the line `B[tt]`, `W[tt]`, `B[tt]`. */
  lemma RepeatingShape()
    ensures WF(Repeating) && MakeSgf([Repeating]).Ok?
    ensures LineAt(Repeating, [Step(1, 0)]) == Some([Node(map["B" := "tt"]), Node(map["W" := "tt"]), Node(map["B" := "tt"])])
  {
    var b0 := [Node(map["B" := "tt"]), Node(map["W" := "tt"]), Node(map["B" := "tt"])];
    assert WF(b0);
    assert WF([Node(map["B" := "aa"])]);
    assert ElemWF(Repeating[1]);
  }
}
