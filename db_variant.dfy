/** `patch_game_with_variant` of db.py: a list of moves is merged into a game
    of sgf.py's tree. Along the moves the cursor follows, at each step, the
    first variant whose next node is the same move, and at the first move no
    variant has it adds the move as a new node and follows it. */
module DbVariant {
  import opened SgfBase
  import opened OldTree
  import opened OldCursor

  /** A game and a cursor's stack over it. */
  datatype Pos = Pos(g: OLine, st: seq<Frame>)

  function Last(st: seq<Frame>): Frame
    requires |st| > 0
  {
    st[|st| - 1]
  }

  /** `get_next(v)`: its result, and the stack it leaves. As written the step
      is undone only for a node that is not empty; `undoAlways` gives the
      peek its docstring promises, which always undoes it. */
  function Peek(g: OLine, st: seq<Frame>, v: int, undoAlways: bool): (r: (Result<Option<ONode>>, seq<Frame>))
    requires StackOk(g, st)
    ensures StackOk(g, r.1)
    ensures r.0 == NextNode(g, Last(st), v)
    ensures r.0.Ok? && r.0.value.Some? && !Truthy(r.0.value.value) && !undoAlways ==>
      r.1 == st + [NextFrame(g, Last(st), v).value.value]
    ensures !(r.0.Ok? && r.0.value.Some? && !Truthy(r.0.value.value) && !undoAlways) ==> r.1 == st
  {
    var r := NextNode(g, Last(st), v);
    if r.Ok? && r.value.Some? && !Truthy(r.value.value) && !undoAlways then
      NextKeepsStack(g, st, v);
      (r, st + [NextFrame(g, Last(st), v).value.value])
    else (r, st)
  }

  /** `cursor.next(v)` for its effect on the stack. */
  function Advance(g: OLine, st: seq<Frame>, v: int): (r: Result<seq<Frame>>)
    requires StackOk(g, st)
    ensures r.Ok? ==> StackOk(g, r.value)
  {
    match NextFrame(g, Last(st), v)
    case Err(e) => Err(e)
    case Ok(None) => Ok(st)
    case Ok(Some(h)) => NextKeepsStack(g, st, v); Ok(st + [h])
  }

  /** The `else` of the loop over the variants: `cursor.add_node` of the
      move, then `cursor.next` into the last variant, where it now is. */
  function AddThenFollow(g: OLine, st: seq<Frame>, p: Props): (r: Result<Pos>)
    requires StackOk(g, st) && "variants" !in p
    ensures r.Ok? ==> StackOk(r.value.g, r.value.st)
  {
    var node := ONode(p, NoVariants);
    match AddNodeTree(g, Last(st), node)
    case Err(e) => Err(e)
    case Ok(g') =>
      AddNodeKeepsStack(g, st, node);
      match Advance(g', st, VariantsNum(NodeAt(g', Last(st))) - 1)
      case Err(e) => Err(e)
      case Ok(st') => Ok(Pos(g', st'))
  }

  /** The inner loop for one move `p`, from variant `v` on, `num` being the
      variant count taken before the loop: a variant whose peeked node is the
      same move is followed; when none is, the move is added and followed. */
  function Follow(g: OLine, st: seq<Frame>, p: Props, v: nat, num: nat, undoAlways: bool): (r: Result<Pos>)
    requires StackOk(g, st) && "variants" !in p
    ensures r.Ok? ==> StackOk(r.value.g, r.value.st)
    decreases num - v
  {
    if v >= num then AddThenFollow(g, st, p)
    else
      var (r, st') := Peek(g, st, v, undoAlways);
      if r.Err? then Err(r.error)
      else if IsSameMove(p, r.value) then
        match Advance(g, st', v)
        case Err(e) => Err(e)
        case Ok(st'') => Ok(Pos(g, st''))
      else Follow(g, st', p, v + 1, num, undoAlways)
  }

  /** The outer loop: the moves of the path, one after the other. */
  function Walk(g: OLine, st: seq<Frame>, path: seq<Props>, undoAlways: bool): (r: Result<OLine>)
    requires StackOk(g, st) && forall k :: 0 <= k < |path| ==> "variants" !in path[k]
    ensures r.Ok? ==> Plain(r.value) && r.value != []
    decreases |path|
  {
    if path == [] then Ok(g)
    else
      match Follow(g, st, path[0], 0, VariantsNum(NodeAt(g, Last(st))), undoAlways)
      case Err(e) => Err(e)
      case Ok(q) => Walk(q.g, q.st, path[1..], undoAlways)
  }

  /** `patch_game_with_variant(game, full_path)` on `game.nodes`, as written. */
  function PatchSpec(nodes: OLine, path: seq<Props>): (r: Result<OLine>)
    requires Plain(nodes) && forall k :: 0 <= k < |path| ==> "variants" !in path[k]
    ensures nodes == [] ==> r == Err(CursorError("Empty game."))
    ensures nodes != [] && path == [] ==> r == Ok(nodes)
    ensures r.Ok? ==> Plain(r.value) && r.value != []
  {
    if nodes == [] then Err(CursorError("Empty game."))
    else Walk(nodes, [Frame([], 0)], path, false)
  }

  /** The same merge with a peek that always undoes its step. */
  function PatchFixed(nodes: OLine, path: seq<Props>): (r: Result<OLine>)
    requires Plain(nodes) && forall k :: 0 <= k < |path| ==> "variants" !in path[k]
    ensures nodes == [] ==> r == Err(CursorError("Empty game."))
    ensures nodes != [] && path == [] ==> r == Ok(nodes)
    ensures r.Ok? ==> Plain(r.value) && r.value != []
  {
    if nodes == [] then Err(CursorError("Empty game."))
    else Walk(nodes, [Frame([], 0)], path, true)
  }

  /** The cursor is where `q` says, or the error is the one `q` holds. */
  predicate Reached(q: Result<Pos>, err: Option<Error>, g: OLine, st: seq<Frame>)
  {
    match q
    case Err(e) => err == Some(e)
    case Ok(x) => err == None && g == x.g && st == x.st
  }

  /** The `else` of the loop over the variants: add the move, then follow the
      last variant, where it now is. */
  method AddAndFollow(cursor: OCursor, p: Props) returns (err: Option<Error>)
    requires cursor.Valid() && "variants" !in p
    modifies cursor
    ensures cursor.Valid()
    ensures Reached(AddThenFollow(old(cursor.nodes), old(cursor.stack), p), err, cursor.nodes, cursor.stack)
  {
    ghost var g0, st := cursor.nodes, cursor.stack;
    ghost var node := ONode(p, NoVariants);
    var added := cursor.AddNode(ONode(p, NoVariants));
    if added.Err? {
      assert AddThenFollow(g0, st, p) == Err(added.error);
      return Some(added.error);
    }
    ghost var g' := AddNodeTree(g0, Last(st), node).value;
    assert cursor.nodes == g' && cursor.stack == st;
    AddedIsLast(g0, st, p);
    // The node just added is a branch or the next node, so the `next`
    // into the last variant cannot raise.
    assert cursor.Top() == Last(st);
    StepIntoLast(cursor);
    err := None;
  }

  /** `cursor.next(cursor.get_variants_num() - 1)` where that step succeeds. */
  method StepIntoLast(cursor: OCursor)
    requires cursor.Valid()
    requires var nf := NextFrame(cursor.nodes, cursor.Top(), VariantsNum(NodeAt(cursor.nodes, cursor.Top())) - 1);
      nf.Ok? && nf.value.Some?
    modifies cursor`stack
    ensures cursor.Valid()
    ensures cursor.stack == old(cursor.stack) +
      [NextFrame(cursor.nodes, old(cursor.Top()), VariantsNum(NodeAt(cursor.nodes, old(cursor.Top()))) - 1).value.value]
  {
    var num := cursor.GetVariantsNum();
    var moved := cursor.Next(num - 1);
  }

  /** After `add_node`, the last variant leads to the node just added, and
      following it is what `AddThenFollow` gives. */
  lemma AddedIsLast(g: OLine, st: seq<Frame>, p: Props)
    requires StackOk(g, st) && "variants" !in p && AddNodeTree(g, Last(st), ONode(p, NoVariants)).Ok?
    ensures var g' := AddNodeTree(g, Last(st), ONode(p, NoVariants)).value;
      var nf := NextFrame(g', Last(st), VariantsNum(NodeAt(g', Last(st))) - 1);
      StackOk(g', st) && nf.Ok? && nf.value.Some? && AddThenFollow(g, st, p) == Ok(Pos(g', st + [nf.value.value]))
  {
    var node := ONode(p, NoVariants);
    AddThenNext(g, Last(st), node);
    AddNodeKeepsStack(g, st, node);
  }

  /** One pass of the loop over the variants: peek at variant `v`, and take
      it when it holds the same move. */
  method TryVariant(cursor: OCursor, p: Props, v: nat, num: nat) returns (found: bool, err: Option<Error>)
    requires cursor.Valid() && "variants" !in p && v < num
    modifies cursor
    ensures cursor.Valid()
    ensures found ==> Reached(Follow(old(cursor.nodes), old(cursor.stack), p, v, num, false), err, cursor.nodes, cursor.stack)
    ensures !found ==>
      Follow(old(cursor.nodes), old(cursor.stack), p, v, num, false) == Follow(cursor.nodes, cursor.stack, p, v + 1, num, false)
  {
    ghost var g, st := cursor.nodes, cursor.stack;
    ghost var whole := Follow(g, st, p, v, num, false);
    var peek := cursor.GetNext(v);
    ghost var st' := cursor.stack;
    assert (peek, st') == Peek(g, st, v, false);
    if peek.Err? {
      assert whole == Err(peek.error);
      return true, Some(peek.error);
    }
    if IsSameMove(p, peek.value) {
      var moved := cursor.Next(v);
      assert whole == match Advance(g, st', v) case Err(e) => Err(e) case Ok(st'') => Ok(Pos(g, st''));
      if moved.Err? {
        return true, Some(moved.error);
      }
      return true, None;
    }
    assert whole == Follow(g, st', p, v + 1, num, false);
    return false, None;
  }

  /** One move of `patch_game_with_variant`: the `for ... else` over the
      variants of the cursor's node. */
  method MergeMove(cursor: OCursor, p: Props) returns (err: Option<Error>)
    requires cursor.Valid() && "variants" !in p
    modifies cursor
    ensures cursor.Valid()
    ensures Reached(Follow(old(cursor.nodes), old(cursor.stack), p, 0, VariantsNum(NodeAt(old(cursor.nodes), Last(old(cursor.stack)))), false),
                    err, cursor.nodes, cursor.stack)
  {
    var num := cursor.GetVariantsNum();
    ghost var target := Follow(cursor.nodes, cursor.stack, p, 0, num, false);
    assert num == VariantsNum(NodeAt(cursor.nodes, Last(cursor.stack)));
    var v := 0;
    while v < num
      invariant 0 <= v <= num && cursor.Valid()
      invariant target == Follow(cursor.nodes, cursor.stack, p, v, num, false)
    {
      var found;
      found, err := TryVariant(cursor, p, v, num);
      if found {
        return;
      }
      v := v + 1;
    }
    assert target == AddThenFollow(cursor.nodes, cursor.stack, p);
    err := AddAndFollow(cursor, p);
  }

  /** `patch_game_with_variant(game, full_path)`: a cursor over the game, and
      every move of the path merged in turn. */
  method PatchGameWithVariant(nodes: OLine, path: seq<Props>) returns (r: Result<OLine>)
    requires Plain(nodes) && forall k :: 0 <= k < |path| ==> "variants" !in path[k]
    ensures r == PatchSpec(nodes, path)
  {
    var made := NewCursor(nodes);
    if made.Err? {
      return Err(made.error);
    }
    var cursor := made.value;
    var i := 0;
    while i < |path|
      invariant 0 <= i <= |path| && cursor.Valid()
      invariant PatchSpec(nodes, path) == Walk(cursor.nodes, cursor.stack, path[i..], false)
    {
      var err := MergeAt(cursor, path, i);
      if err.Some? {
        return Err(err.value);
      }
      i := i + 1;
    }
    r := Ok(cursor.nodes);
  }

  /** One turn of the loop over the path: merge move `i`; what is left of
      the merge is the walk over the rest of the path, or the error. */
  method MergeAt(cursor: OCursor, path: seq<Props>, i: nat) returns (err: Option<Error>)
    requires cursor.Valid() && i < |path| && forall k :: 0 <= k < |path| ==> "variants" !in path[k]
    modifies cursor
    ensures cursor.Valid()
    ensures err.Some? ==> Walk(old(cursor.nodes), old(cursor.stack), path[i..], false) == Err(err.value)
    ensures err.None? ==>
      Walk(old(cursor.nodes), old(cursor.stack), path[i..], false) == Walk(cursor.nodes, cursor.stack, path[i + 1..], false)
  {
    ghost var g, st := cursor.nodes, cursor.stack;
    ghost var q := Follow(g, st, path[i], 0, VariantsNum(NodeAt(g, Last(st))), false);
    assert path[i..][0] == path[i] && path[i..][1..] == path[i + 1..];
    assert Walk(g, st, path[i..], false) ==
      match q case Err(e) => Err(e) case Ok(x) => Walk(x.g, x.st, path[i + 1..], false);
    err := MergeMove(cursor, path[i]);
    if err.Some? {
      assert q == Err(err.value);
    } else {
      assert q == Ok(Pos(cursor.nodes, cursor.stack));
    }
  }

  /** The peek at variant `u` neither fails nor lands on an empty node, so it
      leaves the cursor where it was. */
  predicate Clean(g: OLine, f: Frame, u: int)
    requires FrameOk(g, f)
  {
    NextNode(g, f, u).Ok? && (NextNode(g, f, u).value.Some? ==> Truthy(NextNode(g, f, u).value.value))
  }

  /** The first variant from `v` on whose peeked node is the same move,
      provided every peek before it is clean. */
  function FirstMatch(g: OLine, f: Frame, p: Props, v: nat, num: nat): (w: Option<nat>)
    requires FrameOk(g, f)
    ensures w.Some? ==> v <= w.value < num && Clean(g, f, w.value) && IsSameMove(p, NextNode(g, f, w.value).value)
    ensures w.Some? ==> forall u :: v <= u < w.value ==> Clean(g, f, u) && !IsSameMove(p, NextNode(g, f, u).value)
    decreases num - v
  {
    if v >= num || !Clean(g, f, v) then None
    else if IsSameMove(p, NextNode(g, f, v).value) then Some(v)
    else FirstMatch(g, f, p, v + 1, num)
  }

  /** The lowest variant with the same move is followed, and the game is
      left as it was: the node matched is not touched, and the move's other
      properties are dropped. */
  lemma {:induction false} LowestMatch(g: OLine, st: seq<Frame>, p: Props, v: nat, num: nat, b: bool)
    requires StackOk(g, st) && "variants" !in p && FirstMatch(g, Last(st), p, v, num).Some?
    ensures var w := FirstMatch(g, Last(st), p, v, num).value;
      NextFrame(g, Last(st), w).Ok? && NextFrame(g, Last(st), w).value.Some? &&
      Follow(g, st, p, v, num, b) == Ok(Pos(g, st + [NextFrame(g, Last(st), w).value.value]))
    decreases num - v
  {
    var f := Last(st);
    if !IsSameMove(p, NextNode(g, f, v).value) {
      LowestMatch(g, st, p, v + 1, num, b);
    }
  }

  /** The path is already in the game: at every step some variant has the
      same move, and the peeks before it are clean. */
  predicate Present(g: OLine, st: seq<Frame>, path: seq<Props>)
    requires StackOk(g, st)
    decreases |path|
  {
    path == [] ||
    (var f := Last(st); var w := FirstMatch(g, f, path[0], 0, VariantsNum(NodeAt(g, f)));
     w.Some? && NextFrame(g, f, w.value).Ok? && NextFrame(g, f, w.value).value.Some? &&
     (NextKeepsStack(g, st, w.value);
      Present(g, st + [NextFrame(g, f, w.value).value.value], path[1..])))
  }

  /** Merging a path that is already in the game adds no node and no
      variant. */
  lemma {:induction false} PresentKeepsGame(g: OLine, st: seq<Frame>, path: seq<Props>, b: bool)
    requires StackOk(g, st) && forall k :: 0 <= k < |path| ==> "variants" !in path[k]
    requires Present(g, st, path)
    ensures Walk(g, st, path, b) == Ok(g)
    decreases |path|
  {
    if path != [] {
      var f := Last(st);
      LowestMatch(g, st, path[0], 0, VariantsNum(NodeAt(g, f)), b);
      var w := FirstMatch(g, f, path[0], 0, VariantsNum(NodeAt(g, f))).value;
      NextKeepsStack(g, st, w);
      PresentKeepsGame(g, st + [NextFrame(g, f, w).value.value], path[1..], b);
    }
  }

  /** An empty path leaves the game as it was. */
  lemma EmptyPath(nodes: OLine)
    requires Plain(nodes)
    ensures PatchSpec(nodes, []) == if nodes == [] then Err(CursorError("Empty game.")) else Ok(nodes)
  {
  }

  /** Each move of `path` is the same move as the (non-empty) node at the
      same place in `line`. */
  predicate MovesOf(path: seq<Props>, line: OLine)
  {
    |path| <= |line| && forall j :: 0 <= j < |path| ==> Truthy(line[j]) && IsSameMove(path[j], Some(line[j]))
  }

  /** The moves of the path are the nodes after the cursor, at index `i` of a
      game without forks: the game is left as it was. */
  lemma {:induction false} AlongTrunk(g: OLine, st: seq<Frame>, i: nat, path: seq<Props>, b: bool)
    requires StackOk(g, st) && forall k :: 0 <= k < |path| ==> "variants" !in path[k]
    requires Last(st) == Frame([], i) && i < |g| && MovesOf(path, g[i + 1..])
    requires forall j :: 0 <= j < |g| ==> g[j].variants.NoVariants?
    ensures Walk(g, st, path, b) == Ok(g)
    decreases |path|
  {
    if path != [] {
      var f := Last(st);
      var h := Frame([], i + 1);
      assert g[i + 1..][0] == g[i + 1];
      assert NextFrame(g, f, 0) == Ok(Some(h));
      assert FirstMatch(g, f, path[0], 0, 1) == Some(0);
      LowestMatch(g, st, path[0], 0, 1, b);
      NextKeepsStack(g, st, 0);
      var st' := st + [h];
      assert MovesOf(path[1..], g[i + 2..]) by {
        assert g[i + 2..] == g[i + 1..][1..];
      }
      AlongTrunk(g, st', i + 1, path[1..], b);
    }
  }

  /** When no variant has the move, and the peeks are clean, the move is
      added as exactly one new node, which the cursor then stands on. The
      exception is a mid-line node that already has branches, which the
      source replaces. */
  lemma NoMatchAddsOne(g: OLine, st: seq<Frame>, p: Props, b: bool)
    requires StackOk(g, st) && "variants" !in p
    requires var f := Last(st); forall u :: 0 <= u < VariantsNum(NodeAt(g, f)) ==>
      Clean(g, f, u) && !IsSameMove(p, NextNode(g, f, u).value)
    requires |FrameLine(g, Last(st))| == Last(st).index + 1 || NodeAt(g, Last(st)).variants.NoVariants?
    ensures var f := Last(st); var node := ONode(p, NoVariants);
      var r := Follow(g, st, p, 0, VariantsNum(NodeAt(g, f)), b);
      AddNodeTree(g, f, node).Ok? && r.Ok? && r.value.g == AddNodeTree(g, f, node).value &&
      Count(r.value.g) == Count(g) + 1 &&
      |r.value.st| == |st| + 1 && r.value.st[..|st|] == st && NodeAt(r.value.g, Last(r.value.st)) == node
  {
    var f := Last(st);
    var node := ONode(p, NoVariants);
    var num := VariantsNum(NodeAt(g, f));
    NoMatchAddable(g, st, p);
    var g' := AddNodeTree(g, f, node).value;
    AddNodeCount(g, f, node);
    AddThenNext(g, f, node);
    AddNodeKeepsStack(g, st, node);
    FollowAddsAt(g, st, p, 0, num, b);
  }

  /** Under the same conditions, the cursor may add the move. */
  lemma NoMatchAddable(g: OLine, st: seq<Frame>, p: Props)
    requires StackOk(g, st) && "variants" !in p
    requires var f := Last(st); forall u :: 0 <= u < VariantsNum(NodeAt(g, f)) ==>
      Clean(g, f, u) && !IsSameMove(p, NextNode(g, f, u).value)
    requires |FrameLine(g, Last(st))| == Last(st).index + 1 || NodeAt(g, Last(st)).variants.NoVariants?
    ensures AddNodeTree(g, Last(st), ONode(p, NoVariants)).Ok?
  {
    var f := Last(st);
    var node := ONode(p, NoVariants);
    var l := FrameLine(g, f);
    assert IsSameMove(p, Some(node));
    if |l| == f.index + 1 {
      if l[f.index].variants.Variants? {
        var vs := l[f.index].variants.branches;
        assert node !in Children(l, f.index) by {
          forall k | 0 <= k < |vs| && vs[k].line != []
            ensures vs[k].line[0] != node
          {
            LineAtSnoc(g, f.addr, OStep(f.index, k));
            assert NextNode(g, f, k) == Ok(Some(vs[k].line[0]));
          }
        }
      }
    } else {
      assert l[f.index + 1] != node by {
        assert NextNode(g, f, 0) == Ok(Some(l[f.index + 1]));
      }
    }
  }

  /** With every peek from `v` on clean and no same move among them, the
      inner loop ends in the `else` branch, on the stack it started from. */
  lemma {:induction false} FollowAddsAt(g: OLine, st: seq<Frame>, p: Props, v: nat, num: nat, b: bool)
    requires StackOk(g, st) && "variants" !in p
    requires forall u :: v <= u < num ==> Clean(g, Last(st), u) && !IsSameMove(p, NextNode(g, Last(st), u).value)
    requires AddNodeTree(g, Last(st), ONode(p, NoVariants)).Ok?
    ensures var g' := AddNodeTree(g, Last(st), ONode(p, NoVariants)).value;
      StackOk(g', st) &&
      Follow(g, st, p, v, num, b) ==
        match Advance(g', st, VariantsNum(NodeAt(g', Last(st))) - 1)
        case Err(e) => Err(e)
        case Ok(st') => Ok(Pos(g', st'))
    decreases num - v
  {
    AddNodeKeepsStack(g, st, ONode(p, NoVariants));
    if v < num {
      assert Peek(g, st, v, b).1 == st;
      assert Follow(g, st, p, v, num, b) == Follow(g, st, p, v + 1, num, b);
      FollowAddsAt(g, st, p, v + 1, num, b);
    } else {
      assert Follow(g, st, p, v, num, b) == AddThenFollow(g, st, p);
    }
  }

  /** The root, an empty node, then `B[aa]`: the game of the finding. */
  const Root: ONode := ONode(map["GM" := "1"], NoVariants)
  const Blank: ONode := ONode(map[], NoVariants)
  const MoveAA: ONode := ONode(map["B" := "aa"], NoVariants)

  /** As written, merging the move `B[aa]` into `;GM[1];;B[aa]` fails: the
      peek steps onto the empty node and stays there, and `add_node` then
      finds `B[aa]` right after it. */
  lemma PeekOntoEmptyNode()
    ensures Plain([Root, Blank, MoveAA])
    ensures PatchSpec([Root, Blank, MoveAA], [map["B" := "aa"]]) == Err(CursorError("Node already exists."))
  {
    var g := [Root, Blank, MoveAA];
    assert Plain(g) by {
      assert NodePlain(Root) && NodePlain(Blank) && NodePlain(MoveAA);
    }
    var st := [Frame([], 0)];
    assert StackOk(g, st);
    var p := map["B" := "aa"];
    assert NextFrame(g, Frame([], 0), 0) == Ok(Some(Frame([], 1)));
    var st' := st + [Frame([], 1)];
    assert Peek(g, st, 0, false) == (Ok(Some(Blank)), st');
    assert !IsSameMove(p, Some(Blank));
    assert AddToLine(g, 1, ONode(p, NoVariants)) == Err(CursorError("Node already exists."));
    assert Follow(g, st, p, 0, 1, false) == Err(CursorError("Node already exists."));
  }

  /** With the peek undone always, the same merge forks the game at the root:
      the old line and the new move become its two branches. */
  lemma FixedPeekForks()
    ensures Plain([Root, Blank, MoveAA])
    ensures PatchFixed([Root, Blank, MoveAA], [map["B" := "aa"]]) ==
      Ok([Root.(variants := Variants([OBranch([Blank, MoveAA]), OBranch([MoveAA])]))])
  {
    var g := [Root, Blank, MoveAA];
    assert Plain(g) by {
      assert NodePlain(Root) && NodePlain(Blank) && NodePlain(MoveAA);
    }
    var st := [Frame([], 0)];
    assert StackOk(g, st);
    var p := map["B" := "aa"];
    assert NextFrame(g, Frame([], 0), 0) == Ok(Some(Frame([], 1)));
    assert Peek(g, st, 0, true) == (Ok(Some(Blank)), st);
    assert !IsSameMove(p, Some(Blank));
    var g' := [Root.(variants := Variants([OBranch([Blank, MoveAA]), OBranch([MoveAA])]))];
    ForkAtRoot();
    ForkedLands();
    assert Follow(g, st, p, 0, 1, true) == Ok(Pos(g', st + [Frame([OStep(0, 1)], 0)]));
  }

  /** The root of `[Root, Blank, MoveAA]` forks: the rest of the line and the
      new move become its branches. */
  lemma ForkAtRoot()
    ensures AddNodeTree([Root, Blank, MoveAA], Frame([], 0), ONode(map["B" := "aa"], NoVariants)) ==
      Ok([Root.(variants := Variants([OBranch([Blank, MoveAA]), OBranch([MoveAA])]))])
  {
    var g := [Root, Blank, MoveAA];
    var root' := Root.(variants := Variants([OBranch([Blank, MoveAA]), OBranch([MoveAA])]));
    assert Root.props - {"variants"} == Root.props;
    assert g[1..] == [Blank, MoveAA];
    assert g[..1][0 := root'] == [root'];
    assert "B" in MoveAA.props && "B" !in Blank.props;
    assert g[1] != MoveAA;
    assert AddToLine(g, 0, MoveAA) == Ok([root']);
  }

  /** In the forked game, the second branch leads to the new move. */
  lemma ForkedLands()
    ensures var g' := [Root.(variants := Variants([OBranch([Blank, MoveAA]), OBranch([MoveAA])]))];
      StackOk(g', [Frame([], 0)]) && NextFrame(g', Frame([], 0), 1) == Ok(Some(Frame([OStep(0, 1)], 0)))
  {
    var root' := Root.(variants := Variants([OBranch([Blank, MoveAA]), OBranch([MoveAA])]));
    var g' := [root'];
    assert StackOk(g', [Frame([], 0)]) by {
      assert Plain([MoveAA]) && Plain([Blank, MoveAA]);
      assert NodePlain(root');
    }
    LineAtSnoc(g', [], OStep(0, 1));
    assert [] + [OStep(0, 1)] == [OStep(0, 1)];
  }

  /** The peek that always undoes never moves the cursor. */
  lemma FixedPeekStays(g: OLine, st: seq<Frame>, v: int)
    requires StackOk(g, st)
    ensures Peek(g, st, v, true).1 == st
  {
  }
}
