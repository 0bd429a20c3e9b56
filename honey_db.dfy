/** The game functions of honey/db.py that work on a game's tree: storing an
    uploaded sgf (`create_game`), a blank game (`create_new_game`), and
    writing the comments users made into the nodes they were made on
    (`patch_game_with_comments`). */
module HoneyDb {
  import opened SgfBase
  import opened HoneyTree
  import opened HoneyCursor
  import HoneyParse
  import opened GameRoot

  /** What `create_game` hands back: the game it stores with its type, or
      `False` with the reason it gives. */
  datatype Upload = Stored(nodes: Line, gameType: string) | Refused(reason: string)

  /** `create_game(user_id, sgf_str, expected_game_type)`; an empty
      `expected` stands for both `None` and `""`, which the source treats
      alike. Parse errors are refused; any other exception escapes. */
  function CreateGame(sgf: string, expected: string): (r: Result<Upload>)
    ensures HoneyParse.ParseSpec(sgf).Err? && HoneyParse.ParseSpec(sgf).error.SgfParseError? <==>
      r == Ok(Refused("cannot parse sgf"))
    ensures r.Ok? && r.value.Stored? ==>
      HoneyParse.ParseSpec(sgf).Ok? &&
      var game := HoneyParse.ParseSpec(sgf).value[0];
      var n := r.value.nodes;
      |game| > 0 && game[0].Node? &&
      |n| == |game| && n[1..] == game[1..] &&
      n[0] == Node(FixResult(game[0].props)) &&
      ResolveType(n[0].props) == Ok(Some(r.value.gameType)) &&
      r.value.gameType in {"go", "hex"} &&
      (expected == "" || expected == r.value.gameType)
    ensures r.Ok? && r.value.Refused? && r.value.reason == "Cannot parse game type." ==>
      HoneyParse.ParseSpec(sgf).Ok? &&
      var game := HoneyParse.ParseSpec(sgf).value[0];
      |game| > 0 && game[0].Node? && ResolveType(FixResult(game[0].props)) == Ok(None)
  {
    match HoneyParse.ParseSpec(sgf)
    case Err(SgfParseError(_)) => Ok(Refused("cannot parse sgf"))
    case Err(e) => Err(e)
    case Ok(games) =>
      var game := games[0];
      if game == [] then Err(Crash("IndexError"))
      else if game[0].Variants? then Err(Crash("TypeError"))
      else
        var root := FixResult(game[0].props);
        match ResolveType(root)
        case Err(e) => Err(e)
        case Ok(None) => Ok(Refused("Cannot parse game type."))
        case Ok(Some(t)) =>
          if expected != "" && expected != t then
            Ok(Refused("Game type mismatch. Expected " + expected + ", got " + t + "."))
          else Ok(Stored(game[0 := Node(root)], t))
  }

  /** The mismatch refusal happens exactly when the type found is not the one
      the caller expected. */
  lemma MismatchRefused(sgf: string, expected: string)
    requires HoneyParse.ParseSpec(sgf).Ok?
    requires var game := HoneyParse.ParseSpec(sgf).value[0]; game != [] && game[0].Node?
    ensures var t := ResolveType(FixResult(HoneyParse.ParseSpec(sgf).value[0][0].props));
      t.Ok? && t.value.Some? && expected != "" && expected != t.value.value <==>
      CreateGame(sgf, expected).Ok? && CreateGame(sgf, expected).value.Refused? &&
      CreateGame(sgf, expected).value.reason != "Cannot parse game type."
  {
  }

  /** A stored game keeps no bare `B` or `W` result, and storing it again
      would change nothing. */
  lemma StoredRootIsFixed(sgf: string, expected: string)
    requires CreateGame(sgf, expected).Ok? && CreateGame(sgf, expected).value.Stored?
    ensures var root := CreateGame(sgf, expected).value.nodes[0].props;
      FixResult(root) == root && ("RE" in root ==> root["RE"] != "B" && root["RE"] != "W")
  {
    var game := HoneyParse.ParseSpec(sgf).value[0];
    FixResultIdempotent(game[0].props);
    var root := FixResult(game[0].props);
    if "RE" in root {
      if "RE" in game[0].props && (game[0].props["RE"] == "B" || game[0].props["RE"] == "W") {
        assert |root["RE"]| == 2;
      }
    }
  }

  /** `create_new_game`: a game of one empty root node. */
  function NewGame(): (g: Line)
    ensures WF(g) && |g| == 1 && g[0].Node? && g[0].props == map[]
  {
    [Node(map[])]
  }

  /** A comment as `patch_game_with_comments` sees it: the path to its node as
      (branch, jump) pairs, the date already formatted by `strftime`, the
      author's user name and the text. */
  datatype Hop = Hop(branch: int, jump: int)
  datatype Comment = Comment(path: seq<Hop>, date: string, user: string, text: string)

  /** The paragraph a comment adds to the `C` property. */
  function Note(c: Comment): (s: string)
    ensures |s| > 3 + |c.date| && s[..3 + |c.date|] == "On " + c.date
    ensures |s| >= |c.text| + 2 && s[|s| - |c.text| - 2..] == c.text + "\n\n"
  {
    "On " + c.date + " " + c.user + " said:\n" + c.text + "\n\n"
  }

  /** The node's `C` property with the comment's paragraph appended; every
      other property is kept. */
  function Annotate(p: Props, c: Comment): (r: Props)
    ensures r.Keys == p.Keys + {"C"}
    ensures forall k :: k in p && k != "C" ==> r[k] == p[k]
    ensures var before := if "C" in p then p["C"] else "";
      |r["C"]| == |before| + |Note(c)| && r["C"][..|before|] == before && r["C"][|before|..] == Note(c)
  {
    var before := match Get(p, "C") case Some(s) => s case None => "";
    p["C" := before + Note(c)]
  }

  /** Comments on one node pile up in the order they are written. */
  lemma AnnotateTwice(p: Props, c: Comment, d: Comment)
    ensures Annotate(Annotate(p, c), d)["C"] == (if "C" in p then p["C"] else "") + Note(c) + Note(d)
  {
    var before := if "C" in p then p["C"] else "";
    var q := Annotate(p, c);
    assert q["C"] == q["C"][..|before|] + q["C"][|before|..];
    var r := Annotate(q, d);
    assert r["C"] == r["C"][..|q["C"]|] + r["C"][|q["C"]|..];
  }

  function Last(st: seq<Frame>): Frame
    requires |st| > 0
  {
    st[|st| - 1]
  }

  /** `node = cursor.get_node(); if node: node["C"] = ...`: the node at frame
      `f` gets the comment, unless it is empty (an empty dict is false in
      Python). */
  function Noted(g: Line, f: Frame, c: Comment): (r: Line)
    requires WF(g) && FrameOk(g, f)
    ensures WF(r)
  {
    if NodeAt(g, f) == map[] then g
    else
      SetNodeElsewhere(g, f, Annotate(NodeAt(g, f), c), f);
      SetNodeTree(g, f, Annotate(NodeAt(g, f), c))
  }

  /** Noting a node changes that node's properties and nothing else: every
      frame stays a frame with the same number of ways on. */
  lemma NotedEffect(g: Line, f: Frame, c: Comment, h: Frame)
    requires WF(g) && FrameOk(g, f) && FrameOk(g, h)
    ensures FrameOk(Noted(g, f, c), h) && |VariantsAt(Noted(g, f, c), h)| == |VariantsAt(g, h)|
    ensures NodeAt(Noted(g, f, c), h) ==
      if h == f && NodeAt(g, f) != map[] then Annotate(NodeAt(g, f), c) else NodeAt(g, h)
  {
    if NodeAt(g, f) != map[] {
      SetNodeElsewhere(g, f, Annotate(NodeAt(g, f), c), h);
    }
  }

  lemma NotedKeepsStack(g: Line, st: seq<Frame>, c: Comment)
    requires StackOk(g, st)
    ensures StackOk(Noted(g, Last(st), c), st)
  {
    if NodeAt(g, Last(st)) != map[] {
      SetNodeKeepsStack(g, st, Annotate(NodeAt(g, Last(st)), c));
    }
  }

  /** The stack after `for i in xrange(jump): cursor.next(branch); branch = 0`:
      only the first step may pick a branch, a step at the end of a line stays
      put, and the first error ends the walk. */
  function Jump(g: Line, st: seq<Frame>, branch: int, jump: int): (r: Result<seq<Frame>>)
    requires StackOk(g, st)
    ensures r.Ok? ==> StackOk(g, r.value) && |st| <= |r.value| && r.value[..|st|] == st
    ensures r.Ok? && jump >= 0 ==> |r.value| <= |st| + jump
    decreases jump
  {
    if jump <= 0 then Ok(st)
    else
      match NextFrame(g, Last(st), branch)
      case Err(e) => Err(e)
      case Ok(None) => Jump(g, st, 0, jump - 1)
      case Ok(Some(h)) =>
        NextKeepsStack(g, st, branch);
        var r := Jump(g, st + [h], 0, jump - 1);
        assert r.Ok? ==> r.value[..|st|] == r.value[..|st| + 1][..|st|];
        r
  }

  /** The loop over the pairs of `comment.path` as written: after every pair
      the node reached is noted, and the walk goes on in the noted tree. */
  function WalkNoting(g: Line, st: seq<Frame>, path: seq<Hop>, c: Comment): (r: Result<(Line, seq<Frame>)>)
    requires StackOk(g, st)
    ensures r.Ok? ==> StackOk(r.value.0, r.value.1)
    decreases |path|
  {
    if path == [] then Ok((g, st))
    else
      match Jump(g, st, path[0].branch, path[0].jump)
      case Err(e) => Err(e)
      case Ok(st') =>
        NotedKeepsStack(g, st', c);
        WalkNoting(Noted(g, Last(st'), c), st', path[1..], c)
  }

  /** The stack after following every pair of a path, noting nothing. */
  function Walk(g: Line, st: seq<Frame>, path: seq<Hop>): (r: Result<seq<Frame>>)
    requires StackOk(g, st)
    ensures r.Ok? ==> StackOk(g, r.value)
    decreases |path|
  {
    if path == [] then Ok(st)
    else
      match Jump(g, st, path[0].branch, path[0].jump)
      case Err(e) => Err(e)
      case Ok(st') => Walk(g, st', path[1..])
  }

  /** One comment, with a fresh cursor at the root. As written (`perPair`)
      the note goes to the node reached after each pair of the path; with the
      note written once the walk is made first and only the node at its end
      is noted. */
  function AddComment(g: Line, c: Comment, perPair: bool): (r: Result<Line>)
    requires WF(g)
    ensures r.Ok? ==> WF(r.value)
  {
    assert StackOk(g, [Frame([], 0)]);
    if perPair then
      match WalkNoting(g, [Frame([], 0)], c.path, c)
      case Err(e) => Err(e)
      case Ok((g', _)) => Ok(g')
    else
      match Walk(g, [Frame([], 0)], c.path)
      case Err(e) => Err(e)
      case Ok(st) => Ok(Noted(g, Last(st), c))
  }

  /** `patch_game_with_comments(game, comments)` on the game's tree: every
      comment in turn, each with a cursor of its own over the tree the
      earlier ones left. */
  function Patch(g: Line, cs: seq<Comment>, perPair: bool): (r: Result<Line>)
    requires g == [] || WF(g)
    ensures r.Ok? ==> r.value == [] || WF(r.value)
    decreases |cs|
  {
    if cs == [] then Ok(g)
    else if g == [] then Err(CursorError("Empty game."))
    else
      match AddComment(g, cs[0], perPair)
      case Err(e) => Err(e)
      case Ok(g') => Patch(g', cs[1..], perPair)
  }

  /** Patching with two lists of comments is patching with the first, then
      with the second. */
  lemma {:induction false} PatchAppend(g: Line, cs: seq<Comment>, ds: seq<Comment>, perPair: bool)
    requires g == [] || WF(g)
    ensures Patch(g, cs + ds, perPair) ==
      match Patch(g, cs, perPair) case Err(e) => Err(e) case Ok(g') => Patch(g', ds, perPair)
    decreases |cs|
  {
    if cs == [] {
      assert cs + ds == ds;
    } else if g != [] {
      assert (cs + ds)[0] == cs[0] && (cs + ds)[1..] == cs[1..] + ds;
      match AddComment(g, cs[0], perPair)
      case Err(e) =>
      case Ok(g') => PatchAppend(g', cs[1..], ds, perPair);
    }
  }

  /** With the note written once, a comment changes the properties of the
      node its path leads to and nothing else: every node stays where it was
      with the same properties and forks, except that one, which gets the
      comment appended unless it is empty. */
  lemma CommentLandsOnce(g: Line, c: Comment, h: Frame)
    requires WF(g) && FrameOk(g, h) && AddComment(g, c, false).Ok?
    ensures StackOk(g, [Frame([], 0)])
    ensures var f := Last(Walk(g, [Frame([], 0)], c.path).value);
      var g' := AddComment(g, c, false).value;
      FrameOk(g', h) && |VariantsAt(g', h)| == |VariantsAt(g, h)| &&
      NodeAt(g', h) == if h == f && NodeAt(g, f) != map[] then Annotate(NodeAt(g, f), c) else NodeAt(g, h)
  {
    assert StackOk(g, [Frame([], 0)]);
    var st := Walk(g, [Frame([], 0)], c.path).value;
    NotedEffect(g, Last(st), c, h);
  }

  /** As written, a comment with an empty path notes no node at all. */
  lemma EmptyPathNotesNothing(g: Line, c: Comment)
    requires WF(g) && c.path == []
    ensures AddComment(g, c, true) == Ok(g)
  {
  }

  /** On a line without forks, `jump` steps from node `i` reach node
      `i + jump`, or the last node when the line ends first. */
  lemma {:induction false} JumpAlongTrunk(g: Line, st: seq<Frame>, i: nat, jump: int)
    requires StackOk(g, st) && Last(st) == Frame([], i)
    requires forall k :: 0 <= k < |g| ==> g[k].Node?
    ensures Jump(g, st, 0, jump).Ok?
    ensures Last(Jump(g, st, 0, jump).value) ==
      Frame([], if jump <= 0 then i else if i + jump < |g| then i + jump else |g| - 1)
    decreases jump
  {
    if jump > 0 {
      assert VariantsAt(g, Last(st)) == [];
      if i + 1 < |g| {
        var h := Frame([], i + 1);
        assert NextFrame(g, Last(st), 0) == Ok(Some(h));
        NextKeepsStack(g, st, 0);
        JumpAlongTrunk(g, st + [h], i + 1, jump - 1);
      } else {
        assert NextFrame(g, Last(st), 0) == Ok(None);
        JumpAlongTrunk(g, st, i, jump - 1);
      }
    }
  }

  /** On a blank game the cursor cannot leave the empty root, so every
      comment is dropped, or the walk fails on a branch index other than 0. */
  lemma {:induction false} NewGameDropsComments(cs: seq<Comment>, perPair: bool)
    ensures Patch(NewGame(), cs, perPair) == Ok(NewGame()) ||
      Patch(NewGame(), cs, perPair) == Err(CursorError("No variant."))
    decreases |cs|
  {
    if cs != [] {
      var g := NewGame();
      assert StackOk(g, [Frame([], 0)]);
      RootOnlyWalk(cs[0].path, cs[0]);
      NewGameDropsComments(cs[1..], perPair);
    }
  }

  /** Every walk over a blank game stays at the root, noting nothing, or fails
      with "No variant.". */
  lemma {:induction false} RootOnlyWalk(path: seq<Hop>, c: Comment)
    ensures StackOk(NewGame(), [Frame([], 0)])
    ensures Walk(NewGame(), [Frame([], 0)], path) == Ok([Frame([], 0)]) ||
      Walk(NewGame(), [Frame([], 0)], path) == Err(CursorError("No variant."))
    ensures WalkNoting(NewGame(), [Frame([], 0)], path, c) == Ok((NewGame(), [Frame([], 0)])) ||
      WalkNoting(NewGame(), [Frame([], 0)], path, c) == Err(CursorError("No variant."))
    decreases |path|
  {
    var g := NewGame();
    var st0 := [Frame([], 0)];
    assert StackOk(g, st0);
    if path != [] {
      RootOnlyJump(path[0].branch, path[0].jump);
      if Jump(g, st0, path[0].branch, path[0].jump).Ok? {
        assert Noted(g, Frame([], 0), c) == g;
        RootOnlyWalk(path[1..], c);
      }
    }
  }

  lemma {:induction false} RootOnlyJump(branch: int, jump: int)
    ensures StackOk(NewGame(), [Frame([], 0)])
    ensures Jump(NewGame(), [Frame([], 0)], branch, jump) == Ok([Frame([], 0)]) ||
      Jump(NewGame(), [Frame([], 0)], branch, jump) == Err(CursorError("No variant."))
    decreases jump
  {
    var g := NewGame();
    var st0 := [Frame([], 0)];
    assert StackOk(g, st0);
    if jump > 0 {
      assert VariantsAt(g, Frame([], 0)) == [];
      if branch == 0 {
        assert NextFrame(g, Frame([], 0), 0) == Ok(None);
        RootOnlyJump(0, jump - 1);
      } else {
        assert NextFrame(g, Frame([], 0), branch) == Err(CursorError("No variant."));
      }
    }
  }

  /** A game of three nodes without forks, and a comment whose path takes one
      step twice. */
  const Trunk: Line := [Node(map["GM" := "1"]), Node(map["B" := "aa"]), Node(map["W" := "bb"])]
  const TwoSteps: Comment := Comment([Hop(0, 1), Hop(0, 1)], "2011-01-01 12:00:00", "ann", "nice")

  lemma TrunkSteps()
    ensures WF(Trunk) && StackOk(Trunk, [Frame([], 0)])
    ensures Jump(Trunk, [Frame([], 0)], 0, 1) == Ok([Frame([], 0), Frame([], 1)])
  {
    var st := [Frame([], 0)];
    assert WF(Trunk) && StackOk(Trunk, st);
    assert Last(st) == Frame([], 0) && VariantsAt(Trunk, Frame([], 0)) == [];
    assert NextFrame(Trunk, Frame([], 0), 0) == Ok(Some(Frame([], 1)));
    NextKeepsStack(Trunk, st, 0);
    assert Jump(Trunk, st + [Frame([], 1)], 0, 0) == Ok(st + [Frame([], 1)]);
    assert Jump(Trunk, st, 0, 1) == Jump(Trunk, st + [Frame([], 1)], 0, 0);
    assert st + [Frame([], 1)] == [Frame([], 0), Frame([], 1)];
  }

  lemma SecondStep(g: Line)
    requires WF(g) && |g| == 3 && g[1].Node? && g[2].Node?
    ensures StackOk(g, [Frame([], 0), Frame([], 1)])
    ensures Jump(g, [Frame([], 0), Frame([], 1)], 0, 1) == Ok([Frame([], 0), Frame([], 1), Frame([], 2)])
  {
    var st := [Frame([], 0), Frame([], 1)];
    assert Before(st[0], st[1]);
    assert StackOk(g, st);
    assert Last(st) == Frame([], 1) && VariantsAt(g, Frame([], 1)) == [];
    assert NextFrame(g, Frame([], 1), 0) == Ok(Some(Frame([], 2)));
    NextKeepsStack(g, st, 0);
    assert Jump(g, st + [Frame([], 2)], 0, 0) == Ok(st + [Frame([], 2)]);
    assert Jump(g, st, 0, 1) == Jump(g, st + [Frame([], 2)], 0, 0);
    assert st + [Frame([], 2)] == [Frame([], 0), Frame([], 1), Frame([], 2)];
  }

  /** As written, the comment is written into both nodes its path passes
      after a pair, not only into the node it was made on. */
  lemma NotesEveryPair()
    ensures WF(Trunk)
    ensures AddComment(Trunk, TwoSteps, true) ==
      Ok([Trunk[0], Node(Annotate(Trunk[1].props, TwoSteps)), Node(Annotate(Trunk[2].props, TwoSteps))])
  {
    TrunkSteps();
    var c := TwoSteps;
    var st1 := [Frame([], 0), Frame([], 1)];
    var g1 := Noted(Trunk, Frame([], 1), c);
    assert "B" in NodeAt(Trunk, Frame([], 1));
    assert g1 == Trunk[1 := Node(Annotate(Trunk[1].props, c))];
    assert g1 == [Trunk[0], Node(Annotate(Trunk[1].props, c)), Trunk[2]];
    SecondStep(g1);
    assert c.path[1..] == [Hop(0, 1)] && c.path[1..][1..] == [];
    var st2 := [Frame([], 0), Frame([], 1), Frame([], 2)];
    var g2 := Noted(g1, Frame([], 2), c);
    assert "W" in NodeAt(g1, Frame([], 2));
    assert g2 == g1[2 := Node(Annotate(Trunk[2].props, c))];
    assert g2 == [Trunk[0], Node(Annotate(Trunk[1].props, c)), Node(Annotate(Trunk[2].props, c))];
    assert WalkNoting(g1, st1, c.path[1..], c) == Ok((g2, st2));
  }

  /** Written once, the comment lands only on the node its path leads to. */
  lemma NotesOnlyTheEnd()
    ensures WF(Trunk)
    ensures AddComment(Trunk, TwoSteps, false) ==
      Ok([Trunk[0], Trunk[1], Node(Annotate(Trunk[2].props, TwoSteps))])
  {
    TrunkSteps();
    var c := TwoSteps;
    assert c.path[1..] == [Hop(0, 1)] && c.path[1..][1..] == [];
    var st2 := [Frame([], 0), Frame([], 1), Frame([], 2)];
    SecondStep(Trunk);
    assert Walk(Trunk, [Frame([], 0)], c.path) == Ok(st2);
    assert "W" in NodeAt(Trunk, Frame([], 2));
    assert Noted(Trunk, Frame([], 2), c) == Trunk[2 := Node(Annotate(Trunk[2].props, c))];
    assert Noted(Trunk, Frame([], 2), c) == [Trunk[0], Trunk[1], Node(Annotate(Trunk[2].props, c))];
  }

  /** The first hop of a pair, then the others with branch 0. */
  lemma JumpUnfold(g: Line, st: seq<Frame>, branch: int, jump: int)
    requires StackOk(g, st) && jump > 0
    ensures NextFrame(g, Last(st), branch).Err? ==>
      Jump(g, st, branch, jump) == Err(NextFrame(g, Last(st), branch).error)
    ensures NextFrame(g, Last(st), branch) == Ok(None) ==>
      Jump(g, st, branch, jump) == Jump(g, st, 0, jump - 1)
    ensures NextFrame(g, Last(st), branch).Ok? && NextFrame(g, Last(st), branch).value.Some? ==>
      StackOk(g, st + [NextFrame(g, Last(st), branch).value.value]) &&
      Jump(g, st, branch, jump) == Jump(g, st + [NextFrame(g, Last(st), branch).value.value], 0, jump - 1)
  {
    if NextFrame(g, Last(st), branch).Ok? && NextFrame(g, Last(st), branch).value.Some? {
      NextKeepsStack(g, st, branch);
    }
  }

  /** The first pair of a path, then the rest in the noted tree. */
  lemma WalkNotingUnfold(g: Line, st: seq<Frame>, path: seq<Hop>, c: Comment)
    requires StackOk(g, st) && path != []
    ensures Jump(g, st, path[0].branch, path[0].jump).Err? ==>
      WalkNoting(g, st, path, c) == Err(Jump(g, st, path[0].branch, path[0].jump).error)
    ensures Jump(g, st, path[0].branch, path[0].jump).Ok? ==>
      var st' := Jump(g, st, path[0].branch, path[0].jump).value;
      StackOk(Noted(g, Last(st'), c), st') &&
      WalkNoting(g, st, path, c) == WalkNoting(Noted(g, Last(st'), c), st', path[1..], c)
  {
    if Jump(g, st, path[0].branch, path[0].jump).Ok? {
      NotedKeepsStack(g, Jump(g, st, path[0].branch, path[0].jump).value, c);
    }
  }

  /** One `cursor.next(branch)` of a pair: the walk left matches the walk
      the source still has to do. */
  method NextHop(cursor: Cursor, b: int, n: int) returns (err: Option<Error>)
    requires cursor.Valid() && n > 0
    modifies cursor`stack
    ensures cursor.Valid()
    ensures err.Some? ==> Jump(cursor.nodes, old(cursor.stack), b, n) == Err(err.value)
    ensures err.None? ==> Jump(cursor.nodes, old(cursor.stack), b, n) == Jump(cursor.nodes, cursor.stack, 0, n - 1)
  {
    ghost var g, st := cursor.nodes, cursor.stack;
    ghost var nf := NextFrame(g, Last(st), b);
    JumpUnfold(g, st, b, n);
    var r := cursor.Next(b);
    if r.Err? {
      assert nf == Err(r.error);
      return Some(r.error);
    }
    if nf.value.Some? {
      assert cursor.stack == st + [nf.value.value];
    } else {
      assert cursor.stack == st;
    }
    return None;
  }

  /** `for i in xrange(jump): cursor.next(branch); branch = 0`. */
  method JumpCursor(cursor: Cursor, branch: int, jump: int) returns (err: Option<Error>)
    requires cursor.Valid()
    modifies cursor`stack
    ensures cursor.Valid()
    ensures Jump(cursor.nodes, old(cursor.stack), branch, jump).Err? ==>
      err == Some(Jump(cursor.nodes, old(cursor.stack), branch, jump).error)
    ensures Jump(cursor.nodes, old(cursor.stack), branch, jump).Ok? ==>
      err == None && cursor.stack == Jump(cursor.nodes, old(cursor.stack), branch, jump).value
  {
    ghost var g := cursor.nodes;
    ghost var whole := Jump(g, cursor.stack, branch, jump);
    var b := branch;
    var i := 0;
    while i < jump
      invariant cursor.Valid() && cursor.nodes == g
      invariant whole == Jump(g, cursor.stack, b, jump - i)
    {
      var left := jump - i;
      err := NextHop(cursor, b, left);
      if err.Some? {
        assert whole == Err(err.value);
        return;
      }
      assert whole == Jump(g, cursor.stack, 0, left - 1);
      assert left - 1 == jump - (i + 1);
      b := 0;
      i := i + 1;
    }
    assert whole == Ok(cursor.stack);
    return None;
  }

  /** `node = cursor.get_node()` and, when it is not empty, the comment
      written into it with `cursor.write_node`. */
  method NoteHere(cursor: Cursor, c: Comment)
    requires cursor.Valid()
    modifies cursor`nodes
    ensures cursor.Valid()
    ensures cursor.nodes == Noted(old(cursor.nodes), Last(cursor.stack), c)
  {
    ghost var g := cursor.nodes;
    var node := cursor.GetNode();
    if node != map[] {
      cursor.WriteNode(Annotate(node, c));
    }
  }

  /** One pair of a comment's path: its jumps, then the note on the node
      reached. */
  method NotePair(cursor: Cursor, path: seq<Hop>, c: Comment) returns (err: Option<Error>)
    requires cursor.Valid() && path != []
    modifies cursor
    ensures cursor.Valid()
    ensures err.Some? ==> WalkNoting(old(cursor.nodes), old(cursor.stack), path, c) == Err(err.value)
    ensures err.None? ==>
      WalkNoting(old(cursor.nodes), old(cursor.stack), path, c) == WalkNoting(cursor.nodes, cursor.stack, path[1..], c)
  {
    ghost var g := cursor.nodes;
    ghost var whole := WalkNoting(g, cursor.stack, path, c);
    ghost var hop := Jump(g, cursor.stack, path[0].branch, path[0].jump);
    WalkNotingUnfold(g, cursor.stack, path, c);
    err := JumpCursor(cursor, path[0].branch, path[0].jump);
    if err.Some? {
      assert whole == Err(err.value);
      return;
    }
    assert hop == Ok(cursor.stack) && cursor.nodes == g;
    NoteHere(cursor, c);
    assert whole == WalkNoting(cursor.nodes, cursor.stack, path[1..], c);
  }

  /** The loop over the pairs of `comment.path`, noting the node reached after
      each of them. */
  method NoteAlong(cursor: Cursor, c: Comment) returns (err: Option<Error>)
    requires cursor.Valid()
    modifies cursor
    ensures cursor.Valid()
    ensures WalkNoting(old(cursor.nodes), old(cursor.stack), c.path, c).Err? ==>
      err == Some(WalkNoting(old(cursor.nodes), old(cursor.stack), c.path, c).error)
    ensures WalkNoting(old(cursor.nodes), old(cursor.stack), c.path, c).Ok? ==>
      err == None && (cursor.nodes, cursor.stack) == WalkNoting(old(cursor.nodes), old(cursor.stack), c.path, c).value
  {
    ghost var whole := WalkNoting(cursor.nodes, cursor.stack, c.path, c);
    var k := 0;
    while k < |c.path|
      invariant 0 <= k <= |c.path| && cursor.Valid()
      invariant whole == WalkNoting(cursor.nodes, cursor.stack, c.path[k..], c)
    {
      err := NotePair(cursor, c.path[k..], c);
      if err.Some? {
        assert whole == Err(err.value);
        return;
      }
      assert c.path[k..][1..] == c.path[k + 1..];
      k := k + 1;
    }
    assert whole == Ok((cursor.nodes, cursor.stack));
    return None;
  }

  /** `patch_game_with_comments(game, comments)`: the game's tree after every
      comment has been written into it, or the exception that stops it. */
  method PatchGameWithComments(nodes: Line, comments: seq<Comment>) returns (r: Result<Line>)
    requires nodes == [] || WF(nodes)
    ensures r == Patch(nodes, comments, true)
  {
    var game := nodes;
    var i := 0;
    while i < |comments|
      invariant 0 <= i <= |comments|
      invariant game == [] || WF(game)
      invariant Patch(nodes, comments, true) == Patch(game, comments[i..], true)
    {
      var made := NewCursor(game);
      if made.Err? {
        return Err(made.error);
      }
      var cursor := made.value;
      var err := NoteAlong(cursor, comments[i]);
      if err.Some? {
        return Err(err.value);
      }
      game := cursor.nodes;
      assert comments[i..][1..] == comments[i + 1..];
      i := i + 1;
    }
    return Ok(game);
  }
}
