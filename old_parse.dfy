/** `SgfHandler`, `_runParser` and `parseSgf` of sgf.py. The handler keeps the
    list of games and a stack of the lists it is filling (`branch_stack`);
    each of those lists lives inside the games, so the stack is kept here as
    addresses into them, and `curr_node` as the address of a node. */
module OldParse {
  import opened SgfBase
  import opened SgfLexer
  import opened OldTree

  /** The line `path` of game `game`. */
  datatype LAddr = LAddr(game: nat, path: OAddr)
  /** Node `index` of the line at `at`. */
  datatype NAddr = NAddr(at: LAddr, index: nat)

  /** The handler's fields `games`, `branch_stack` and `curr_node`. */
  datatype OBuilder = OBuilder(games: seq<OLine>, stack: seq<LAddr>, cur: Option<NAddr>)

  const Fresh: OBuilder := OBuilder([], [], None)

  function GLine(gs: seq<OLine>, a: LAddr): Option<OLine>
  {
    if a.game < |gs| then LineAt(gs[a.game], a.path) else None
  }

  predicate NodeOk(gs: seq<OLine>, c: NAddr)
  {
    GLine(gs, c.at).Some? && c.index < |GLine(gs, c.at).value|
  }

  function NodeIn(gs: seq<OLine>, c: NAddr): ONode
    requires NodeOk(gs, c)
  {
    GLine(gs, c.at).value[c.index]
  }

  /** The games with the line at `a` replaced by `nl`. */
  function PutGLine(gs: seq<OLine>, a: LAddr, nl: OLine): seq<OLine>
    requires GLine(gs, a).Some?
  {
    gs[a.game := PutLine(gs[a.game], a.path, nl)]
  }

  /** The games with the node at `c` replaced by `n`. */
  function PutNode(gs: seq<OLine>, c: NAddr, n: ONode): seq<OLine>
    requires NodeOk(gs, c)
  {
    PutGLine(gs, c.at, GLine(gs, c.at).value[c.index := n])
  }

  /** Every list on the stack and the current node are in the games. */
  predicate Inv(b: OBuilder)
  {
    (forall k :: 0 <= k < |b.stack| ==> GLine(b.games, b.stack[k]).Some?) &&
    (b.cur.Some? ==> NodeOk(b.games, b.cur.value))
  }

  predicate GamesGrow(gs: seq<OLine>, gs2: seq<OLine>)
  {
    |gs| <= |gs2| && forall i :: 0 <= i < |gs| ==> Grows(gs[i], gs2[i])
  }

  lemma GamesGrowAt(gs: seq<OLine>, gs2: seq<OLine>, a: LAddr)
    requires GamesGrow(gs, gs2) && GLine(gs, a).Some?
    ensures GLine(gs2, a).Some? && |GLine(gs, a).value| <= |GLine(gs2, a).value|
  {
    GrowsAt(gs[a.game], gs2[a.game], a.path);
  }

  /** Putting a line that grew makes the games grow, and puts it there. */
  lemma PutGLineGrows(gs: seq<OLine>, a: LAddr, nl: OLine)
    requires GLine(gs, a).Some? && Grows(GLine(gs, a).value, nl)
    ensures GamesGrow(gs, PutGLine(gs, a, nl)) && GLine(PutGLine(gs, a, nl), a) == Some(nl)
  {
    var gs2 := PutGLine(gs, a, nl);
    PutGrows(gs[a.game], a.path, nl);
    GetPut(gs[a.game], a.path, nl);
    forall i | 0 <= i < |gs|
      ensures Grows(gs[i], gs2[i])
    {
      if i != a.game {
        GrowsRefl(gs[i]);
      }
    }
  }

  /** Growth keeps the stack and the current node in the games. */
  lemma GrowKeepsInv(b: OBuilder, gs2: seq<OLine>)
    requires Inv(b) && GamesGrow(b.games, gs2)
    ensures Inv(b.(games := gs2))
  {
    forall k | 0 <= k < |b.stack|
      ensures GLine(gs2, b.stack[k]).Some?
    {
      GamesGrowAt(b.games, gs2, b.stack[k]);
    }
    if b.cur.Some? {
      GamesGrowAt(b.games, gs2, b.cur.value.at);
    }
  }

  /** `on_game_start`: a new empty game, pushed on the stack. */
  function GameStartOp(b: OBuilder): (r: OBuilder)
    requires Inv(b)
    ensures Inv(r)
    ensures r.games == b.games + [[]] && r.cur == b.cur
    ensures r.stack == b.stack + [LAddr(|b.games|, [])] && GLine(r.games, r.stack[|r.stack| - 1]) == Some([])
  {
    var gs2 := b.games + [[]];
    assert GamesGrow(b.games, gs2) by {
      forall i | 0 <= i < |b.games|
        ensures Grows(b.games[i], gs2[i])
      {
        GrowsRefl(b.games[i]);
      }
    }
    GrowKeepsInv(b, gs2);
    OBuilder(gs2, b.stack + [LAddr(|b.games|, [])], b.cur)
  }

  /** `on_game_stop`: a game closes only from its own list, at a node that is
      not empty. */
  function GameStopOp(b: OBuilder): (r: Result<OBuilder>)
    requires Inv(b)
    ensures r.Ok? ==> Inv(r.value)
    ensures r.Ok? <==> |b.stack| == 1 && b.cur.Some? && Truthy(NodeIn(b.games, b.cur.value))
    ensures r.Err? && |b.stack| != 1 ==> r.error == SgfParseError("Invalid end of the game.")
    ensures r.Err? && |b.stack| == 1 ==> r.error == SgfParseError("Empty game.")
    ensures r.Ok? ==> r.value == OBuilder(b.games, [], None)
  {
    if |b.stack| != 1 then Err(SgfParseError("Invalid end of the game."))
    else if b.cur.None? || !Truthy(NodeIn(b.games, b.cur.value)) then Err(SgfParseError("Empty game."))
    else Ok(b.(stack := [], cur := None))
  }

  /** `on_node`: a fresh empty node at the end of the list on top of the
      stack, which becomes the current node. */
  function NodeOp(b: OBuilder): (r: Result<OBuilder>)
    requires Inv(b)
    ensures r.Ok? ==> Inv(r.value)
    ensures r.Ok? <==> b.games != [] && b.stack != []
    ensures b.games == [] ==> r == Err(SgfParseError("No current game."))
    ensures r.Ok? ==>
      var a := b.stack[|b.stack| - 1]; var l := GLine(b.games, a).value;
      r.value.stack == b.stack && GLine(r.value.games, a) == Some(l + [ONode(map[], NoVariants)]) &&
      r.value.cur == Some(NAddr(a, |l|)) && GamesGrow(b.games, r.value.games)
  {
    if b.games == [] then Err(SgfParseError("No current game."))
    else if b.stack == [] then Err(Crash("IndexError"))
    else
      var a := b.stack[|b.stack| - 1];
      var l := GLine(b.games, a).value;
      var nl := l + [ONode(map[], NoVariants)];
      AppendGrows(l, [ONode(map[], NoVariants)]);
      PutGLineGrows(b.games, a, nl);
      var gs2 := PutGLine(b.games, a, nl);
      GrowKeepsInv(b, gs2);
      Ok(OBuilder(gs2, b.stack, Some(NAddr(a, |l|))))
  }

  /** `on_property(name, value)`: the current node gets the property, unless
      it already has that key. */
  function PropertyOp(b: OBuilder, name: string, value: string): (r: Result<OBuilder>)
    requires Inv(b)
    ensures r.Ok? ==> Inv(r.value)
    ensures b.cur.None? ==> r == Err(SgfParseError("No current node."))
    ensures b.cur.Some? ==>
      var n := NodeIn(b.games, b.cur.value);
      (r.Err? <==> HasKey(n, name)) &&
      (r.Err? ==> r.error == SgfParseError("Duplicate property.")) &&
      (r.Ok? ==> r.value.stack == b.stack && r.value.cur == b.cur &&
                 NodeOk(r.value.games, b.cur.value) &&
                 NodeIn(r.value.games, b.cur.value) == n.(props := n.props[name := value]))
  {
    if b.cur.None? then Err(SgfParseError("No current node."))
    else
      var c := b.cur.value;
      var n := NodeIn(b.games, c);
      if HasKey(n, name) then Err(SgfParseError("Duplicate property."))
      else
        var n' := n.(props := n.props[name := value]);
        var l := GLine(b.games, c.at).value;
        NodeKeepsBranches(n, n.props[name := value]);
        UpdateGrows(l, c.index, n');
        PutGLineGrows(b.games, c.at, l[c.index := n']);
        GrowKeepsInv(b, PutNode(b.games, c, n'));
        Ok(b.(games := PutNode(b.games, c, n')))
  }

  /** `on_branch_start`: a new empty branch at the end of the current node's
      `"variants"` list (created if missing), pushed on the stack. A text
      property named `variants` has no `append`. */
  function BranchStartOp(b: OBuilder): (r: Result<OBuilder>)
    requires Inv(b)
    ensures r.Ok? ==> Inv(r.value) && r.value.cur == b.cur && |r.value.stack| == |b.stack| + 1
    ensures b.cur.None? ==> r == Err(SgfParseError("No current node."))
    ensures b.cur.Some? ==>
      var c := b.cur.value; var n := NodeIn(b.games, c);
      var vs := if n.variants.Variants? then n.variants.branches else [];
      (r.Ok? <==> "variants" !in n.props) &&
      (r.Ok? ==> NodeOk(r.value.games, c) &&
                 NodeIn(r.value.games, c) == n.(variants := Variants(vs + [OBranch([])])) &&
                 r.value.stack == b.stack + [LAddr(c.at.game, c.at.path + [OStep(c.index, |vs|)])] &&
                 GLine(r.value.games, r.value.stack[|b.stack|]) == Some([]))
  {
    if b.cur.None? then Err(SgfParseError("No current node."))
    else
      var c := b.cur.value;
      var n := NodeIn(b.games, c);
      if "variants" in n.props then Err(Crash("AttributeError"))
      else
        var vs := if n.variants.Variants? then n.variants.branches else [];
        var n' := n.(variants := Variants(vs + [OBranch([])]));
        var l := GLine(b.games, c.at).value;
        var nl := l[c.index := n'];
        NodeGains(n, n.props, [OBranch([])]);
        UpdateGrows(l, c.index, n');
        PutGLineGrows(b.games, c.at, nl);
        var gs2 := PutGLine(b.games, c.at, nl);
        GrowKeepsInv(b, gs2);
        var top := LAddr(c.at.game, c.at.path + [OStep(c.index, |vs|)]);
        LineAtSnoc(gs2[c.at.game], c.at.path, OStep(c.index, |vs|));
        assert GLine(gs2, top) == Some([]);
        Ok(OBuilder(gs2, b.stack + [top], b.cur))
  }

  /** `on_branch_stop`: the branch is popped off the stack, and the current
      node becomes the last node of the list now on top; that list must not
      be empty. */
  function BranchStopOp(b: OBuilder): (r: Result<OBuilder>)
    requires Inv(b)
    ensures r.Ok? ==> Inv(r.value) && r.value.games == b.games && |b.stack| > 1 && r.value.stack == b.stack[..|b.stack| - 1]
    ensures |b.stack| <= 1 ==> r == Err(SgfParseError("No current branch."))
    ensures |b.stack| > 1 ==>
      var l := GLine(b.games, b.stack[|b.stack| - 2]).value;
      (r.Err? <==> l == []) && (r.Err? ==> r.error == SgfParseError("Empty branch.")) &&
      (r.Ok? ==> r.value.cur == Some(NAddr(b.stack[|b.stack| - 2], |l| - 1)))
  {
    if |b.stack| <= 1 then Err(SgfParseError("No current branch."))
    else
      var st := b.stack[..|b.stack| - 1];
      var a := st[|st| - 1];
      var l := GLine(b.games, a).value;
      if l == [] then Err(SgfParseError("Empty branch."))
      else Ok(OBuilder(b.games, st, Some(NAddr(a, |l| - 1))))
  }

  function Handle(b: OBuilder, e: Event): (r: Result<OBuilder>)
    requires Inv(b)
    ensures r.Ok? ==> Inv(r.value)
  {
    match e
    case GameStart => Ok(GameStartOp(b))
    case GameStop => GameStopOp(b)
    case NodeStart => NodeOp(b)
    case Property(name, value) => PropertyOp(b, name, value)
    case BranchStart => BranchStartOp(b)
    case BranchStop => BranchStopOp(b)
  }

  /** `get_result`. */
  function ResultOf(b: OBuilder): (r: Result<seq<OLine>>)
    ensures r.Err? <==> b.games == []
    ensures r.Ok? ==> r.value == b.games
    ensures r.Err? ==> r.error == SgfParseError("Empty collection.")
  {
    if b.games == [] then Err(SgfParseError("Empty collection.")) else Ok(b.games)
  }

  /** The lexer and the handler together. */
  datatype Machine = Machine(lx: Lexer, b: OBuilder)

  const Begin: Machine := Machine(Start, Fresh)

  /** One character: the lexer step, and the callback it fires. sgf.py
      reports every property, also one with an empty name. */
  function Step(m: Machine, c: char): (r: Result<Machine>)
    requires Inv(m.b)
    ensures r.Ok? ==> Inv(r.value.b)
  {
    var o := LexStep(m.lx, c, false);
    match o.event
    case None => Ok(Machine(o.next, m.b))
    case Some(e) =>
      match Handle(m.b, e)
      case Err(err) => Err(err)
      case Ok(b') => Ok(Machine(o.next, b'))
  }

  function Run(m: Machine, s: string): (r: Result<Machine>)
    requires Inv(m.b)
    ensures r.Ok? ==> Inv(r.value.b)
    decreases |s|
  {
    if s == [] then Ok(m)
    else
      match Step(m, s[0])
      case Err(e) => Err(e)
      case Ok(m') => Run(m', s[1..])
  }

  /** `parseSgf(s)`. */
  function ParseSpec(s: string): (r: Result<seq<OLine>>)
    ensures r.Ok? ==> |r.value| > 0
  {
    match Run(Begin, s)
    case Err(e) => Err(e)
    case Ok(m) => ResultOf(m.b)
  }

  /** Reading `s + t` is reading `s`, then `t` from where `s` left off; an
      error in `s` ends the run. */
  lemma {:induction false} RunAppend(m: Machine, s: string, t: string)
    requires Inv(m.b)
    ensures Run(m, s + t) == match Run(m, s) case Err(e) => Err(e) case Ok(m') => Run(m', t)
    decreases |s|
  {
    if s == [] {
      assert s + t == t;
    } else {
      assert (s + t)[0] == s[0] && (s + t)[1..] == s[1..] + t;
      match Step(m, s[0])
      case Err(_) =>
      case Ok(m') => RunAppend(m', s[1..], t);
    }
  }

  lemma RunCons(m: Machine, s: string)
    requires Inv(m.b) && s != []
    ensures Run(m, s) == match Step(m, s[0]) case Err(e) => Err(e) case Ok(m') => Run(m', s[1..])
  {
  }

  lemma RunOne(m: Machine, c: char)
    requires Inv(m.b)
    ensures Run(m, [c]) == Step(m, c)
  {
    assert [c][0] == c && [c][1..] == [];
  }

  /** Outside a game everything but `(` is skipped. */
  lemma {:induction false} CollectionSkips(m: Machine, s: string)
    requires Inv(m.b) && m.lx.state == Collection && '(' !in s
    ensures Run(m, s) == Ok(m)
    decreases |s|
  {
    if s != [] {
      assert s[0] != '(' && '(' !in s[1..];
      CollectionSkips(m, s[1..]);
    }
  }

  /** Between nodes everything but `;`, `(` and `)` is skipped. */
  lemma {:induction false} SeqSkips(m: Machine, s: string)
    requires Inv(m.b) && m.lx.state == Seq
    requires forall i :: 0 <= i < |s| ==> s[i] != ';' && s[i] != '(' && s[i] != ')'
    ensures Run(m, s) == Ok(m)
    decreases |s|
  {
    if s != [] {
      SeqSkips(m, s[1..]);
    }
  }

  /** A text without `(` holds no game: "Empty collection.". */
  lemma NoGameIsEmptyCollection(s: string)
    requires '(' !in s
    ensures ParseSpec(s) == Err(SgfParseError("Empty collection."))
  {
    CollectionSkips(Begin, s);
  }

  /** The machine right after the first `(` of a text. */
  lemma GameOpened(w: string)
    requires forall i :: 0 <= i < |w| ==> w[i] != ';' && w[i] != '(' && w[i] != ')'
    ensures Run(Begin, "(" + w) == Ok(Machine(Start.(state := Seq), OBuilder([[]], [LAddr(0, [])], None)))
  {
    var m1 := Machine(Start.(state := Seq), OBuilder([[]], [LAddr(0, [])], None));
    assert Run(Begin, "(") == Ok(m1) by {
      RunOne(Begin, '(');
      assert "(" == ['('];
      assert GameStartOp(Fresh) == m1.b;
    }
    RunAppend(Begin, "(", w);
    SeqSkips(m1, w);
  }

  /** A game without a node, such as `()`, is refused with "Empty game.". */
  lemma GameWithoutNodes(w: string)
    requires forall i :: 0 <= i < |w| ==> w[i] != ';' && w[i] != '(' && w[i] != ')'
    ensures ParseSpec("(" + w + ")") == Err(SgfParseError("Empty game."))
  {
    GameOpened(w);
    var m1 := Run(Begin, "(" + w).value;
    RunOne(m1, ')');
    assert ")" == [')'];
    RunAppend(Begin, "(" + w, ")");
  }

  /** A branch opened before the game's first node, as in `((`, is refused
      with "No current node.", whatever follows. */
  lemma BranchBeforeNode(w: string, t: string)
    requires forall i :: 0 <= i < |w| ==> w[i] != ';' && w[i] != '(' && w[i] != ')'
    ensures ParseSpec("(" + w + "(" + t) == Err(SgfParseError("No current node."))
  {
    GameOpened(w);
    var m1 := Run(Begin, "(" + w).value;
    RunOne(m1, '(');
    assert "(" == ['('];
    RunAppend(Begin, "(" + w, "(");
    RunAppend(Begin, "(" + w + "(", t);
  }

  /** Inside a node, the characters of a name that holds no `;`, `[`, `(`
      or `)` are only gathered. */
  lemma {:induction false} NodeGathers(m: Machine, w: string)
    requires Inv(m.b) && m.lx.state == InNode
    requires forall i :: 0 <= i < |w| ==> w[i] != ';' && w[i] != '[' && w[i] != '(' && w[i] != ')'
    ensures Run(m, w) == Ok(m.(lx := m.lx.(acc := m.lx.acc + w)))
    decreases |w|
  {
    if w == [] {
      assert m.lx.acc + w == m.lx.acc;
      assert m.lx == m.lx.(acc := m.lx.acc);
    } else {
      var m' := m.(lx := m.lx.(acc := m.lx.acc + [w[0]]));
      NodeGathers(m', w[1..]);
      assert m.lx.acc + [w[0]] + w[1..] == m.lx.acc + w;
    }
  }

  /** Inside a property value everything but `]` is gathered verbatim. */
  lemma {:induction false} ValueGathers(m: Machine, w: string)
    requires Inv(m.b) && m.lx.state == InProperty && ']' !in w
    ensures Run(m, w) == Ok(m.(lx := m.lx.(acc := m.lx.acc + w)))
    decreases |w|
  {
    if w == [] {
      assert m.lx.acc + w == m.lx.acc;
      assert m.lx == m.lx.(acc := m.lx.acc);
    } else {
      assert w[0] != ']' && ']' !in w[1..];
      var m' := m.(lx := m.lx.(acc := m.lx.acc + [w[0]]));
      ValueGathers(m', w[1..]);
      assert m.lx.acc + [w[0]] + w[1..] == m.lx.acc + w;
    }
  }

  /** Reading `name[value]` inside a node hands the property to
      `on_property`, also when the name is empty. */
  lemma ReadProperty(m: Machine, name: string, value: string)
    requires Inv(m.b) && m.lx.state == InNode && m.lx.acc == ""
    requires forall i :: 0 <= i < |name| ==> name[i] != ';' && name[i] != '[' && name[i] != '(' && name[i] != ')'
    requires ']' !in value
    ensures Run(m, name + "[" + value + "]") ==
      match PropertyOp(m.b, name, value)
      case Err(e) => Err(e)
      case Ok(b') => Ok(Machine(m.lx.(propName := name), b'))
  {
    NodeGathers(m, name);
    var m1 := m.(lx := m.lx.(acc := m.lx.acc + name));
    assert m.lx.acc + name == name;
    var m2 := m.(lx := m.lx.(propName := name, acc := "", state := InProperty));
    assert Run(m1, "[") == Ok(m2) by {
      assert "["[0] == '[' && "["[1..] == "";
    }
    ValueGathers(m2, value);
    var m3 := m2.(lx := m2.lx.(acc := value));
    assert m2.lx.acc + value == value;
    assert Run(m3, "]") == (match PropertyOp(m.b, name, value)
        case Err(e) => Err(e)
        case Ok(b') => Ok(Machine(m.lx.(propName := name), b'))) by {
      assert "]"[0] == ']' && "]"[1..] == "";
    }
    RunAppend(m, name, "[");
    RunAppend(m, name + "[", value);
    RunAppend(m, name + "[" + value, "]");
  }

  /** Giving the current node a property it already has is refused, whatever
      the value. */
  lemma DuplicateProperty(m: Machine, name: string, v: string, w: string)
    requires Inv(m.b) && m.lx.state == InNode && m.lx.acc == "" && m.b.cur.Some?
    requires forall i :: 0 <= i < |name| ==> name[i] != ';' && name[i] != '[' && name[i] != '(' && name[i] != ')'
    requires ']' !in v && ']' !in w
    requires PropertyOp(m.b, name, v).Ok?
    ensures Run(m, (name + "[" + v + "]") + (name + "[" + w + "]")) == Err(SgfParseError("Duplicate property."))
  {
    ReadProperty(m, name, v);
    var m' := Machine(m.lx.(propName := name), PropertyOp(m.b, name, v).value);
    ReadProperty(m', name, w);
    RunAppend(m, name + "[" + v + "]", name + "[" + w + "]");
  }

  /** The machines while reading `(;((;`: the game opened, its first node,
      a branch in it, a second branch beside the first (both hang from that
      node), and a node in the second. */
  const EmptyNode: ONode := ONode(map[], NoVariants)
  const Trunk: LAddr := LAddr(0, [])
  const FirstBranch: LAddr := LAddr(0, [OStep(0, 0)])
  const SecondBranch: LAddr := LAddr(0, [OStep(0, 1)])
  const Opened: Machine := Machine(Start.(state := Seq), OBuilder([[]], [Trunk], None))
  const AtRoot: Machine := Machine(Start.(state := InNode), OBuilder([[EmptyNode]], [Trunk], Some(NAddr(Trunk, 0))))
  const InFirst: Machine := Machine(Start.(state := Seq, depth := 1),
    OBuilder([[ONode(map[], Variants([OBranch([])]))]], [Trunk, FirstBranch], Some(NAddr(Trunk, 0))))
  const InSecond: Machine := Machine(Start.(state := Seq, depth := 2),
    OBuilder([[ONode(map[], Variants([OBranch([]), OBranch([])]))]], [Trunk, FirstBranch, SecondBranch], Some(NAddr(Trunk, 0))))
  const NodeInSecond: Machine := Machine(Start.(state := InNode, depth := 2),
    OBuilder([[ONode(map[], Variants([OBranch([]), OBranch([EmptyNode])]))]], [Trunk, FirstBranch, SecondBranch],
             Some(NAddr(SecondBranch, 0))))

  lemma ReadOpened()
    ensures Run(Begin, "(") == Ok(Opened)
  {
    RunOne(Begin, '(');
    assert GameStartOp(Fresh) == Opened.b;
  }

  lemma ReadAtRoot()
    ensures Run(Begin, "(;") == Ok(AtRoot)
  {
    ReadOpened();
    assert Step(Opened, ';') == Ok(AtRoot) by {
      assert GLine([[]], Trunk) == Some([]);
      assert [] + [EmptyNode] == [EmptyNode];
      assert PutGLine([[]], Trunk, [EmptyNode]) == [[EmptyNode]];
      assert NodeOp(Opened.b) == Ok(AtRoot.b);
    }
    RunOne(Opened, ';');
    RunAppend(Begin, "(", ";");
    assert "(;" == "(" + ";";
  }

  lemma ReadInFirst()
    ensures Run(Begin, "(;(") == Ok(InFirst)
  {
    ReadAtRoot();
    OpenFirst();
    assert Step(AtRoot, '(') == Ok(InFirst);
    RunOne(AtRoot, '(');
    RunAppend(Begin, "(;", "(");
    assert "(;(" == "(;" + "(";
  }

  lemma OpenFirst()
    ensures BranchStartOp(AtRoot.b) == Ok(InFirst.b)
  {
    var n1 := ONode(map[], Variants([OBranch([])]));
    assert NodeIn([[EmptyNode]], NAddr(Trunk, 0)) == EmptyNode;
    assert [] + [OBranch([])] == [OBranch([])];
    assert [EmptyNode][0 := n1] == [n1];
    assert [] + [OStep(0, 0)] == [OStep(0, 0)];
    assert [Trunk] + [FirstBranch] == [Trunk, FirstBranch];
    assert PutGLine([[EmptyNode]], Trunk, [n1]) == [[n1]];
    LineAtSnoc([n1], [], OStep(0, 0));
  }

  lemma ReadInSecond()
    ensures Run(Begin, "(;((") == Ok(InSecond)
  {
    ReadInFirst();
    OpenSecond();
    assert Step(InFirst, '(') == Ok(InSecond);
    RunOne(InFirst, '(');
    RunAppend(Begin, "(;(", "(");
    assert "(;((" == "(;(" + "(";
  }

  lemma ReadNodeInSecond()
    ensures Run(Begin, "(;((;") == Ok(NodeInSecond)
  {
    ReadInSecond();
    NodeSecond();
    assert Step(InSecond, ';') == Ok(NodeInSecond);
    RunOne(InSecond, ';');
    RunAppend(Begin, "(;((", ";");
    assert "(;((;" == "(;((" + ";";
  }

  lemma OpenSecond()
    ensures BranchStartOp(InFirst.b) == Ok(InSecond.b)
  {
    var n1 := ONode(map[], Variants([OBranch([])]));
    var n2 := ONode(map[], Variants([OBranch([]), OBranch([])]));
    assert NodeIn([[n1]], NAddr(Trunk, 0)) == n1;
    assert [OBranch([])] + [OBranch([])] == [OBranch([]), OBranch([])];
    assert [n1][0 := n2] == [n2];
    assert [] + [OStep(0, 1)] == [OStep(0, 1)];
    assert [Trunk, FirstBranch] + [SecondBranch] == [Trunk, FirstBranch, SecondBranch];
    assert PutGLine([[n1]], Trunk, [n2]) == [[n2]];
    LineAtSnoc([n2], [], OStep(0, 1));
  }

  lemma NodeSecond()
    ensures NodeOp(InSecond.b) == Ok(NodeInSecond.b)
  {
    var n2 := ONode(map[], Variants([OBranch([]), OBranch([])]));
    var n3 := ONode(map[], Variants([OBranch([]), OBranch([EmptyNode])]));
    LineAtSnoc([n2], [], OStep(0, 1));
    assert GLine([[n2]], SecondBranch) == Some([]);
    assert [] + [EmptyNode] == [EmptyNode];
    assert SecondBranch.path[1..] == [];
    assert [OBranch([]), OBranch([])][1 := OBranch([EmptyNode])] == [OBranch([]), OBranch([EmptyNode])];
    assert PutLine([n2], SecondBranch.path, [EmptyNode]) == [n3];
    assert PutGLine([[n2]], SecondBranch, [EmptyNode]) == [[n3]];
  }

  /** Two branches opened one inside the other right after a node, as in
      `(;((;)`: both hang from that node, and closing the inner one finds the
      outer one empty: "Empty branch.", whatever follows. */
  lemma NestedBranchesAfterNode(t: string)
    ensures ParseSpec("(;((;)" + t) == Err(SgfParseError("Empty branch."))
  {
    ReadClosedInner();
    RunAppend(Begin, "(;((;)", t);
  }

  lemma ReadClosedInner()
    ensures Run(Begin, "(;((;)") == Err(SgfParseError("Empty branch."))
  {
    ReadNodeInSecond();
    CloseInner();
    RunOne(NodeInSecond, ')');
    RunAppend(Begin, "(;((;", ")");
    assert "(;((;)" == "(;((;" + ")";
  }

  lemma CloseInner()
    ensures Step(NodeInSecond, ')') == Err(SgfParseError("Empty branch."))
  {
    var n3 := ONode(map[], Variants([OBranch([]), OBranch([EmptyNode])]));
    LineAtSnoc([n3], [], OStep(0, 0));
    assert GLine([[n3]], FirstBranch) == Some([]);
  }

  /** `SgfHandler` of sgf.py, its lists referred to by address. */
  class OldHandler {
    var games: seq<OLine>
    var stack: seq<LAddr>
    var cur: Option<NAddr>

    function State(): OBuilder
      reads this
    {
      OBuilder(games, stack, cur)
    }

    predicate Valid()
      reads this
    {
      Inv(State())
    }

    constructor ()
      ensures State() == Fresh && Valid()
    {
      games, stack, cur := [], [], None;
    }

    method OnGameStart()
      requires Valid()
      modifies this
      ensures State() == GameStartOp(old(State())) && Valid()
    {
      var game := |games|;
      games := games + [[]];
      stack := stack + [LAddr(game, [])];
    }

    method OnGameStop() returns (err: Option<Error>)
      requires Valid()
      modifies this
      ensures Valid()
      ensures GameStopOp(old(State())).Err? ==> err == Some(GameStopOp(old(State())).error) && State() == old(State())
      ensures GameStopOp(old(State())).Ok? ==> err == None && State() == GameStopOp(old(State())).value
    {
      if |stack| != 1 {
        return Some(SgfParseError("Invalid end of the game."));
      }
      if cur.None? || !Truthy(NodeIn(games, cur.value)) {
        return Some(SgfParseError("Empty game."));
      }
      stack, cur := [], None;
      err := None;
    }

    method OnNode() returns (err: Option<Error>)
      requires Valid()
      modifies this
      ensures Valid()
      ensures NodeOp(old(State())).Err? ==> err == Some(NodeOp(old(State())).error) && State() == old(State())
      ensures NodeOp(old(State())).Ok? ==> err == None && State() == NodeOp(old(State())).value
    {
      if games == [] {
        return Some(SgfParseError("No current game."));
      }
      if stack == [] {
        return Some(Crash("IndexError"));
      }
      var a := stack[|stack| - 1];
      var branch := GLine(games, a).value;
      ghost var b0 := State();
      assert NodeOp(b0).Ok?;
      games := PutGLine(games, a, branch + [ONode(map[], NoVariants)]);
      cur := Some(NAddr(a, |branch|));
      err := None;
    }

    method OnProperty(name: string, value: string) returns (err: Option<Error>)
      requires Valid()
      modifies this
      ensures Valid()
      ensures PropertyOp(old(State()), name, value).Err? ==>
        err == Some(PropertyOp(old(State()), name, value).error) && State() == old(State())
      ensures PropertyOp(old(State()), name, value).Ok? ==>
        err == None && State() == PropertyOp(old(State()), name, value).value
    {
      if cur.None? {
        return Some(SgfParseError("No current node."));
      }
      var node := NodeIn(games, cur.value);
      if HasKey(node, name) {
        return Some(SgfParseError("Duplicate property."));
      }
      ghost var b0 := State();
      assert PropertyOp(b0, name, value).Ok?;
      games := PutNode(games, cur.value, node.(props := node.props[name := value]));
      err := None;
    }

    method OnBranchStart() returns (err: Option<Error>)
      requires Valid()
      modifies this
      ensures Valid()
      ensures BranchStartOp(old(State())).Err? ==> err == Some(BranchStartOp(old(State())).error) && State() == old(State())
      ensures BranchStartOp(old(State())).Ok? ==> err == None && State() == BranchStartOp(old(State())).value
    {
      if cur.None? {
        return Some(SgfParseError("No current node."));
      }
      var c := cur.value;
      var node := NodeIn(games, c);
      if "variants" in node.props {
        return Some(Crash("AttributeError"));
      }
      var vs := if node.variants.Variants? then node.variants.branches else [];
      ghost var b0 := State();
      assert BranchStartOp(b0).Ok?;
      games := PutNode(games, c, node.(variants := Variants(vs + [OBranch([])])));
      stack := stack + [LAddr(c.at.game, c.at.path + [OStep(c.index, |vs|)])];
      err := None;
    }

    /** Like the source, the branch is popped before an empty list below it
        is reported. */
    method OnBranchStop() returns (err: Option<Error>)
      requires Valid()
      modifies this
      ensures Valid()
      ensures BranchStopOp(old(State())).Err? && |old(stack)| <= 1 ==>
        err == Some(SgfParseError("No current branch.")) && State() == old(State())
      ensures BranchStopOp(old(State())).Err? && |old(stack)| > 1 ==>
        err == Some(SgfParseError("Empty branch.")) && State() == old(State()).(stack := old(stack)[..|old(stack)| - 1])
      ensures BranchStopOp(old(State())).Ok? ==> err == None && State() == BranchStopOp(old(State())).value
    {
      if |stack| <= 1 {
        return Some(SgfParseError("No current branch."));
      }
      stack := stack[..|stack| - 1];
      var branch := GLine(games, stack[|stack| - 1]).value;
      if |branch| == 0 {
        return Some(SgfParseError("Empty branch."));
      }
      cur := Some(NAddr(stack[|stack| - 1], |branch| - 1));
      err := None;
    }

    method GetResult() returns (r: Result<seq<OLine>>)
      ensures r == ResultOf(State())
    {
      if games == [] {
        return Err(SgfParseError("Empty collection."));
      }
      r := Ok(games);
    }
  }

  /** One pass of the loop of `_runParser`: the lexer's move on `c` and the
      callback it fires. */
  method Feed(h: OldHandler, lx: Lexer, c: char) returns (lx': Lexer, err: Option<Error>)
    requires h.Valid()
    modifies h
    ensures h.Valid()
    ensures Step(Machine(lx, old(h.State())), c) == if err.Some? then Err(err.value) else Ok(Machine(lx', h.State()))
  {
    var state, acc, depth, propName := lx.state, lx.acc, lx.depth, lx.propName;
    err := None;
    if state == Collection && c == '(' {
      h.OnGameStart();
      state := Seq;
    } else if state == Seq && c == ';' {
      err := h.OnNode();
      state := InNode;
    } else if state == InNode && c == ';' {
      err := h.OnNode();
    } else if state == InNode && c == '[' {
      propName, acc, state := acc, "", InProperty;
    } else if (state == Seq || state == InNode) && c == '(' {
      acc, depth, state := "", depth + 1, Seq;
      err := h.OnBranchStart();
    } else if (state == InNode || state == Seq) && c == ')' {
      lx', err := FeedClose(h, lx);
      return;
    } else if state == InProperty && c == ']' {
      lx', err := FeedValue(h, lx);
      return;
    } else if state == InNode || state == InProperty {
      acc := acc + [c];
    }
    lx' := Lexer(state, acc, depth, propName);
  }

  /** The `)` rule of the loop: the end of a game at depth 0, else of a
      branch. */
  method FeedClose(h: OldHandler, lx: Lexer) returns (lx': Lexer, err: Option<Error>)
    requires h.Valid() && (lx.state == InNode || lx.state == Seq)
    modifies h
    ensures h.Valid()
    ensures Step(Machine(lx, old(h.State())), ')') == if err.Some? then Err(err.value) else Ok(Machine(lx', h.State()))
  {
    var state, acc, depth, propName := lx.state, "", lx.depth, lx.propName;
    if depth == 0 {
      err := h.OnGameStop();
      state := Collection;
    } else {
      err := h.OnBranchStop();
      depth, state := depth - 1, Seq;
    }
    lx' := Lexer(state, acc, depth, propName);
  }

  /** The `]` rule of the loop: the end of a property value. */
  method FeedValue(h: OldHandler, lx: Lexer) returns (lx': Lexer, err: Option<Error>)
    requires h.Valid() && lx.state == InProperty
    modifies h
    ensures h.Valid()
    ensures Step(Machine(lx, old(h.State())), ']') == if err.Some? then Err(err.value) else Ok(Machine(lx', h.State()))
  {
    var value := lx.acc;
    err := h.OnProperty(lx.propName, value);
    lx' := lx.(acc := "", state := InNode);
  }

  /** `_runParser(sgf, handler)`: the lexer loop, firing the handler's
      callbacks; it stops at the first callback that raises. */
  method RunParser(sgf: string, h: OldHandler) returns (err: Option<Error>)
    requires h.Valid()
    modifies h
    ensures h.Valid()
    ensures Run(Machine(Start, old(h.State())), sgf).Err? ==> err == Some(Run(Machine(Start, old(h.State())), sgf).error)
    ensures Run(Machine(Start, old(h.State())), sgf).Ok? ==> err == None && h.State() == Run(Machine(Start, old(h.State())), sgf).value.b
  {
    ghost var m0 := Machine(Start, h.State());
    var lx := Start;
    var i := 0;
    while i < |sgf|
      invariant 0 <= i <= |sgf|
      invariant h.Valid()
      invariant Run(m0, sgf) == Run(Machine(lx, h.State()), sgf[i..])
    {
      ghost var mc := Machine(lx, h.State());
      lx, err := Feed(h, lx, sgf[i]);
      RunCons(mc, sgf[i..]);
      if err.Some? {
        return err;
      }
      assert sgf[i..][1..] == sgf[i + 1..];
      i := i + 1;
    }
    err := None;
  }

  /** `parseSgf(sgf)`: the collection, or the first error raised. */
  method ParseSgf(sgf: string) returns (r: Result<seq<OLine>>)
    ensures r == ParseSpec(sgf)
  {
    var h := new OldHandler();
    var err := RunParser(sgf, h);
    if err.Some? {
      return Err(err.value);
    }
    r := h.GetResult();
  }
}
