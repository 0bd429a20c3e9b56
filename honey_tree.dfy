/** The game tree of honey/sgf.py. A game is a line: a list whose elements are
    nodes (property dicts) or, in place of a fork, a list of branches, each
    branch again a line. A line inside the tree is addressed by the path of
    (element index, variant index) steps that leads to it from the game. */
module HoneyTree {
  import opened SgfBase

  datatype Elem = Node(props: Props) | Variants(branches: seq<Branch>)
  datatype Branch = Branch(line: seq<Elem>)
  type Line = seq<Elem>

  /** One step from a line into a branch of the fork stored at element `elem`. */
  datatype Step = Step(elem: nat, variant: nat)
  type Addr = seq<Step>

  /** A line the cursor can walk: it is not empty, starts with a node, and every
      fork in it has at least one branch, each a walkable line. */
  predicate WF(l: Line)
    decreases l
  {
    |l| > 0 && l[0].Node? && forall i :: 0 <= i < |l| ==> ElemWF(l[i])
  }

  predicate ElemWF(e: Elem)
    decreases e
  {
    match e
    case Node(_) => true
    case Variants(bs) => |bs| > 0 && forall j :: 0 <= j < |bs| ==> WF(bs[j].line)
  }

  /** The line at address `a`, if the address leads anywhere. */
  function LineAt(l: Line, a: Addr): Option<Line>
    decreases |a|
  {
    if a == [] then Some(l)
    else
      var s := a[0];
      if s.elem < |l| && l[s.elem].Variants? && s.variant < |l[s.elem].branches| then
        LineAt(l[s.elem].branches[s.variant].line, a[1..])
      else None
  }

  /** The tree with the line at address `a` replaced by `nl`. */
  function PutLine(l: Line, a: Addr, nl: Line): Line
    requires LineAt(l, a).Some?
    decreases |a|
  {
    if a == [] then nl
    else
      var s := a[0];
      var bs := l[s.elem].branches;
      l[s.elem := Variants(bs[s.variant := Branch(PutLine(bs[s.variant].line, a[1..], nl))])]
  }

  predicate IsPrefix(b: Addr, a: Addr) { |b| <= |a| && a[..|b|] == b }

  lemma {:induction false} LineAtAppend(l: Line, a: Addr, b: Addr)
    ensures LineAt(l, a + b) == if LineAt(l, a).Some? then LineAt(LineAt(l, a).value, b) else None
    decreases |a|
  {
    if a == [] {
      assert a + b == b;
    } else {
      assert (a + b)[0] == a[0] && (a + b)[1..] == a[1..] + b;
      var s := a[0];
      if s.elem < |l| && l[s.elem].Variants? && s.variant < |l[s.elem].branches| {
        LineAtAppend(l[s.elem].branches[s.variant].line, a[1..], b);
      }
    }
  }

  /** One more step: the branch `variant` of the fork at `elem` of the line at `a`. */
  lemma LineAtSnoc(l: Line, a: Addr, s: Step)
    ensures LineAt(l, a + [s]) ==
      if LineAt(l, a).Some? && s.elem < |LineAt(l, a).value| && LineAt(l, a).value[s.elem].Variants?
         && s.variant < |LineAt(l, a).value[s.elem].branches|
      then Some(LineAt(l, a).value[s.elem].branches[s.variant].line)
      else None
  {
    LineAtAppend(l, a, [s]);
  }

  /** Every line inside a walkable tree is walkable. */
  lemma {:induction false} WFAt(l: Line, a: Addr)
    requires WF(l) && LineAt(l, a).Some?
    ensures WF(LineAt(l, a).value)
    decreases |a|
  {
    if a != [] {
      var s := a[0];
      assert ElemWF(l[s.elem]);
      WFAt(l[s.elem].branches[s.variant].line, a[1..]);
    }
  }

  lemma {:induction false} GetPut(l: Line, a: Addr, nl: Line)
    requires LineAt(l, a).Some?
    ensures LineAt(PutLine(l, a, nl), a) == Some(nl)
    decreases |a|
  {
    if a != [] {
      var s := a[0];
      GetPut(l[s.elem].branches[s.variant].line, a[1..], nl);
    }
  }

  /** Replacing a line deeper in the tree leaves every line above it as it was,
      except the fork on the way down, which keeps its number of branches. */
  lemma {:induction false} PutAbove(l: Line, a: Addr, nl: Line, b: Addr)
    requires LineAt(l, a).Some? && IsPrefix(b, a) && |b| < |a|
    ensures LineAt(PutLine(l, a, nl), b).Some? && LineAt(l, b).Some?
    ensures var old_ := LineAt(l, b).value; var new_ := LineAt(PutLine(l, a, nl), b).value;
      var e := a[|b|].elem;
      |new_| == |old_| && e < |old_| && old_[e].Variants? && new_[e].Variants? &&
      |new_[e].branches| == |old_[e].branches| &&
      forall i :: 0 <= i < |old_| && i != e ==> new_[i] == old_[i]
    decreases |a|
  {
    var s := a[0];
    var bs := l[s.elem].branches;
    if b != [] {
      assert a[1..][..|b[1..]|] == b[1..];
      PutAbove(bs[s.variant].line, a[1..], nl, b[1..]);
    }
  }

  /** Replacing the line at `a` leaves every line off the path to it unchanged. */
  lemma {:induction false} PutAside(l: Line, a: Addr, nl: Line, b: Addr)
    requires LineAt(l, a).Some? && !IsPrefix(b, a) && !IsPrefix(a, b)
    ensures LineAt(PutLine(l, a, nl), b) == LineAt(l, b)
    decreases |a|
  {
    var s := a[0];
    var t := b[0];
    var bs := l[s.elem].branches;
    if s == t {
      PutAside(bs[s.variant].line, a[1..], nl, b[1..]);
    }
  }

  lemma {:induction false} PutWF(l: Line, a: Addr, nl: Line)
    requires WF(l) && WF(nl) && LineAt(l, a).Some?
    ensures WF(PutLine(l, a, nl))
    decreases |a|
  {
    if a != [] {
      var s := a[0];
      var bs := l[s.elem].branches;
      assert ElemWF(l[s.elem]);
      PutWF(bs[s.variant].line, a[1..], nl);
      var bs' := bs[s.variant := Branch(PutLine(bs[s.variant].line, a[1..], nl))];
      assert ElemWF(Variants(bs'));
      var l' := PutLine(l, a, nl);
      assert forall i :: 0 <= i < |l'| ==> ElemWF(l'[i]);
    }
  }
}
