/** The game tree of sgf.py: a game is a list of nodes, and the forks after a
    node are kept in that node's dict under the key `"variants"`, as a list of
    branches, each again a list of nodes. A line inside the tree is addressed
    by the path of (node index, variant index) steps that leads to it. */
module OldTree {
  import opened SgfBase

  /** A node's dict: its text properties, and the list under `"variants"` if
      the node has forks. A text property literally named `variants` is kept
      in `props`, as the source's dict keeps it under the same key. */
  datatype ONode = ONode(props: Props, variants: Forks)
  datatype Forks = NoVariants | Variants(branches: seq<OBranch>)
  datatype OBranch = OBranch(line: seq<ONode>)
  type OLine = seq<ONode>

  /** One step from a line into branch `variant` of the node at index `node`. */
  datatype OStep = OStep(node: nat, variant: nat)
  type OAddr = seq<OStep>

  /** `"variants" in node`. */
  predicate HasVariantsKey(n: ONode)
  {
    n.variants.Variants? || "variants" in n.props
  }

  /** `name in node` (`has_key`). */
  predicate HasKey(n: ONode, name: string)
  {
    name in n.props || (name == "variants" && n.variants.Variants?)
  }

  /** Python's truth value of a node dict: false exactly when it is empty. */
  predicate Truthy(n: ONode)
    ensures Truthy(n) <==> exists k :: HasKey(n, k)
  {
    assert n.variants.Variants? ==> HasKey(n, "variants");
    assert n.props != map[] ==> exists k :: HasKey(n, k) by {
      if n.props != map[] {
        var k :| k in n.props;
        assert HasKey(n, k);
      }
    }
    n.props != map[] || n.variants.Variants?
  }

  /** The line at address `a`, if the address leads anywhere. */
  function LineAt(l: OLine, a: OAddr): Option<OLine>
    decreases |a|
  {
    if a == [] then Some(l)
    else
      var s := a[0];
      if s.node < |l| && l[s.node].variants.Variants? && s.variant < |l[s.node].variants.branches| then
        LineAt(l[s.node].variants.branches[s.variant].line, a[1..])
      else None
  }

  /** The tree with the line at address `a` replaced by `nl`. */
  function PutLine(l: OLine, a: OAddr, nl: OLine): OLine
    requires LineAt(l, a).Some?
    decreases |a|
  {
    if a == [] then nl
    else
      var s := a[0];
      var n := l[s.node];
      var vs := n.variants.branches;
      l[s.node := n.(variants := Variants(vs[s.variant := OBranch(PutLine(vs[s.variant].line, a[1..], nl))]))]
  }

  lemma {:induction false} GetPut(l: OLine, a: OAddr, nl: OLine)
    requires LineAt(l, a).Some?
    ensures LineAt(PutLine(l, a, nl), a) == Some(nl)
    decreases |a|
  {
    if a != [] {
      var s := a[0];
      GetPut(l[s.node].variants.branches[s.variant].line, a[1..], nl);
    }
  }

  predicate IsPrefix(b: OAddr, a: OAddr) { |b| <= |a| && a[..|b|] == b }

  lemma {:induction false} LineAtAppend(l: OLine, a: OAddr, b: OAddr)
    ensures LineAt(l, a + b) == if LineAt(l, a).Some? then LineAt(LineAt(l, a).value, b) else None
    decreases |a|
  {
    if a == [] {
      assert a + b == b;
    } else {
      assert (a + b)[0] == a[0] && (a + b)[1..] == a[1..] + b;
      var s := a[0];
      if s.node < |l| && l[s.node].variants.Variants? && s.variant < |l[s.node].variants.branches| {
        LineAtAppend(l[s.node].variants.branches[s.variant].line, a[1..], b);
      }
    }
  }

  /** One more step: branch `variant` of node `node` of the line at `a`. */
  lemma LineAtSnoc(l: OLine, a: OAddr, s: OStep)
    ensures LineAt(l, a + [s]) ==
      if LineAt(l, a).Some? && s.node < |LineAt(l, a).value| && LineAt(l, a).value[s.node].variants.Variants?
         && s.variant < |LineAt(l, a).value[s.node].variants.branches|
      then Some(LineAt(l, a).value[s.node].variants.branches[s.variant].line)
      else None
  {
    LineAtAppend(l, a, [s]);
  }

  /** `l2` is `l` after lists in it only grew at their ends and nodes only
      gained properties or branches: what the handler does to a game. */
  predicate Grows(l: OLine, l2: OLine)
    decreases l
  {
    |l| <= |l2| && forall i :: 0 <= i < |l| ==> NodeGrows(l[i], l2[i])
  }

  predicate NodeGrows(n: ONode, n2: ONode)
    decreases n
  {
    match n.variants
    case NoVariants => true
    case Variants(vs) =>
      n2.variants.Variants? && |vs| <= |n2.variants.branches| &&
      forall j :: 0 <= j < |vs| ==> Grows(vs[j].line, n2.variants.branches[j].line)
  }

  lemma {:induction false} GrowsRefl(l: OLine)
    ensures Grows(l, l)
    decreases l
  {
    forall i | 0 <= i < |l|
      ensures NodeGrows(l[i], l[i])
    {
      NodeGrowsRefl(l[i]);
    }
  }

  lemma {:induction false} NodeGrowsRefl(n: ONode)
    ensures NodeGrows(n, n)
    decreases n
  {
    if n.variants.Variants? {
      var vs := n.variants.branches;
      forall j | 0 <= j < |vs|
        ensures Grows(vs[j].line, vs[j].line)
      {
        GrowsRefl(vs[j].line);
      }
    }
  }

  /** A line that only grew at its end. */
  lemma AppendGrows(l: OLine, tail: OLine)
    ensures Grows(l, l + tail)
  {
    GrowsRefl(l);
    assert forall i :: 0 <= i < |l| ==> (l + tail)[i] == l[i];
  }

  /** One node of a line grew. */
  lemma UpdateGrows(l: OLine, i: nat, n: ONode)
    requires i < |l| && NodeGrows(l[i], n)
    ensures Grows(l, l[i := n])
  {
    GrowsRefl(l);
  }

  /** A node gained properties or branches at the end of its list. */
  lemma NodeGains(n: ONode, props: Props, more: seq<OBranch>)
    ensures NodeGrows(n, ONode(props, Variants((if n.variants.Variants? then n.variants.branches else []) + more)))
  {
    if n.variants.Variants? {
      var vs := n.variants.branches;
      forall j | 0 <= j < |vs|
        ensures Grows(vs[j].line, (vs + more)[j].line)
      {
        GrowsRefl(vs[j].line);
      }
    }
  }

  lemma NodeKeepsBranches(n: ONode, props: Props)
    ensures NodeGrows(n, n.(props := props))
  {
    NodeGrowsRefl(n);
  }

  /** Growth keeps every address leading somewhere, to a line that grew. */
  lemma {:induction false} GrowsAt(l: OLine, l2: OLine, a: OAddr)
    requires Grows(l, l2) && LineAt(l, a).Some?
    ensures LineAt(l2, a).Some? && Grows(LineAt(l, a).value, LineAt(l2, a).value)
    decreases |a|
  {
    if a != [] {
      var s := a[0];
      assert NodeGrows(l[s.node], l2[s.node]);
      GrowsAt(l[s.node].variants.branches[s.variant].line, l2[s.node].variants.branches[s.variant].line, a[1..]);
    }
  }

  /** Replacing a line by one that grew makes the whole tree grow. */
  lemma {:induction false} PutGrows(l: OLine, a: OAddr, nl: OLine)
    requires LineAt(l, a).Some? && Grows(LineAt(l, a).value, nl)
    ensures Grows(l, PutLine(l, a, nl))
    decreases |a|
  {
    if a != [] {
      var s := a[0];
      var n := l[s.node];
      var vs := n.variants.branches;
      var inner := PutLine(vs[s.variant].line, a[1..], nl);
      PutGrows(vs[s.variant].line, a[1..], nl);
      var vs2 := vs[s.variant := OBranch(inner)];
      forall j | 0 <= j < |vs|
        ensures Grows(vs[j].line, vs2[j].line)
      {
        if j != s.variant {
          GrowsRefl(vs[j].line);
        }
      }
      assert NodeGrows(n, n.(variants := Variants(vs2)));
      UpdateGrows(l, s.node, n.(variants := Variants(vs2)));
    }
  }

  /** Replacing a line deeper in the tree leaves every line above it the same
      length; there only the node on the way down changes, and only in its
      branches, whose number it keeps. */
  lemma {:induction false} PutAbove(l: OLine, a: OAddr, nl: OLine, b: OAddr)
    requires LineAt(l, a).Some? && IsPrefix(b, a) && |b| < |a|
    ensures LineAt(PutLine(l, a, nl), b).Some? && LineAt(l, b).Some?
    ensures var old_ := LineAt(l, b).value; var new_ := LineAt(PutLine(l, a, nl), b).value;
      var e := a[|b|].node;
      |new_| == |old_| && e < |old_| && old_[e].variants.Variants? && new_[e].variants.Variants? &&
      |new_[e].variants.branches| == |old_[e].variants.branches| && new_[e].props == old_[e].props &&
      forall i :: 0 <= i < |old_| && i != e ==> new_[i] == old_[i]
    decreases |a|
  {
    var s := a[0];
    var vs := l[s.node].variants.branches;
    if b != [] {
      assert a[1..][..|b[1..]|] == b[1..];
      PutAbove(vs[s.variant].line, a[1..], nl, b[1..]);
    }
  }

  /** Replacing the line at `a` leaves every line off the path to it unchanged. */
  lemma {:induction false} PutAside(l: OLine, a: OAddr, nl: OLine, b: OAddr)
    requires LineAt(l, a).Some? && !IsPrefix(b, a) && !IsPrefix(a, b)
    ensures LineAt(PutLine(l, a, nl), b) == LineAt(l, b)
    decreases |a|
  {
    var s := a[0];
    var t := b[0];
    var vs := l[s.node].variants.branches;
    if s == t {
      PutAside(vs[s.variant].line, a[1..], nl, b[1..]);
    }
  }

  /** No node of the tree has a text property named `variants`: the trees the
      cursor is modelled on. */
  predicate Plain(l: OLine)
    decreases l
  {
    forall i :: 0 <= i < |l| ==> NodePlain(l[i])
  }

  predicate NodePlain(n: ONode)
    decreases n
  {
    "variants" !in n.props &&
    match n.variants
    case NoVariants => true
    case Variants(vs) => forall j :: 0 <= j < |vs| ==> Plain(vs[j].line)
  }

  lemma {:induction false} PlainAt(l: OLine, a: OAddr)
    requires Plain(l) && LineAt(l, a).Some?
    ensures Plain(LineAt(l, a).value)
    decreases |a|
  {
    if a != [] {
      var s := a[0];
      assert NodePlain(l[s.node]);
      PlainAt(l[s.node].variants.branches[s.variant].line, a[1..]);
    }
  }

  lemma {:induction false} PutPlain(l: OLine, a: OAddr, nl: OLine)
    requires Plain(l) && Plain(nl) && LineAt(l, a).Some?
    ensures Plain(PutLine(l, a, nl))
    decreases |a|
  {
    if a != [] {
      var s := a[0];
      var n := l[s.node];
      var vs := n.variants.branches;
      assert NodePlain(n);
      PutPlain(vs[s.variant].line, a[1..], nl);
      var vs' := vs[s.variant := OBranch(PutLine(vs[s.variant].line, a[1..], nl))];
      assert NodePlain(n.(variants := Variants(vs')));
      var l' := PutLine(l, a, nl);
      assert forall i :: 0 <= i < |l'| ==> NodePlain(l'[i]);
    }
  }

  /** The number of nodes in a line and everything hanging from it. */
  function Count(l: OLine): nat
    decreases l
  {
    if l == [] then 0 else NodeCount(l[0]) + Count(l[1..])
  }

  function NodeCount(n: ONode): nat
    decreases n
  {
    1 + match n.variants
        case NoVariants => 0
        case Variants(vs) => BranchesCount(vs)
  }

  function BranchesCount(vs: seq<OBranch>): nat
    decreases vs
  {
    if vs == [] then 0 else Count(vs[0].line) + BranchesCount(vs[1..])
  }

  lemma {:induction false} CountAppend(a: OLine, b: OLine)
    ensures Count(a + b) == Count(a) + Count(b)
    decreases |a|
  {
    if a == [] {
      assert a + b == b;
    } else {
      assert (a + b)[1..] == a[1..] + b;
      CountAppend(a[1..], b);
    }
  }

  lemma {:induction false} BranchesAppend(a: seq<OBranch>, b: seq<OBranch>)
    ensures BranchesCount(a + b) == BranchesCount(a) + BranchesCount(b)
    decreases |a|
  {
    if a == [] {
      assert a + b == b;
    } else {
      assert (a + b)[1..] == a[1..] + b;
      BranchesAppend(a[1..], b);
    }
  }

  /** Replacing a node changes the count by the difference of the two. */
  lemma CountUpdate(l: OLine, i: nat, n: ONode)
    requires i < |l|
    ensures Count(l[i := n]) == Count(l) - NodeCount(l[i]) + NodeCount(n)
  {
    assert l == l[..i] + [l[i]] + l[i + 1..];
    assert l[i := n] == l[..i] + [n] + l[i + 1..];
    CountAppend(l[..i] + [l[i]], l[i + 1..]);
    CountAppend(l[..i], [l[i]]);
    CountAppend(l[..i] + [n], l[i + 1..]);
    CountAppend(l[..i], [n]);
  }

  lemma BranchesUpdate(vs: seq<OBranch>, j: nat, b: OBranch)
    requires j < |vs|
    ensures BranchesCount(vs[j := b]) == BranchesCount(vs) - Count(vs[j].line) + Count(b.line)
  {
    assert vs == vs[..j] + [vs[j]] + vs[j + 1..];
    assert vs[j := b] == vs[..j] + [b] + vs[j + 1..];
    BranchesAppend(vs[..j] + [vs[j]], vs[j + 1..]);
    BranchesAppend(vs[..j], [vs[j]]);
    BranchesAppend(vs[..j] + [b], vs[j + 1..]);
    BranchesAppend(vs[..j], [b]);
  }

  /** Replacing a line changes the count of the whole tree by the difference
      of the two lines. */
  lemma {:induction false} CountPut(l: OLine, a: OAddr, nl: OLine)
    requires LineAt(l, a).Some?
    ensures Count(PutLine(l, a, nl)) == Count(l) - Count(LineAt(l, a).value) + Count(nl)
    decreases |a|
  {
    if a != [] {
      var s := a[0];
      var n := l[s.node];
      var vs := n.variants.branches;
      var inner := PutLine(vs[s.variant].line, a[1..], nl);
      CountPut(vs[s.variant].line, a[1..], nl);
      BranchesUpdate(vs, s.variant, OBranch(inner));
      CountUpdate(l, s.node, n.(variants := Variants(vs[s.variant := OBranch(inner)])));
    }
  }
}
