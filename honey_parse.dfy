/** `SgfHandler`, `_runParser` and `parseSgf` of honey/sgf.py: the handler
    builds the games from the lexer's callbacks. A game is built branch by
    branch: the branch being filled is `top`, and each branch still open under
    it is kept as a `Fork` (the part of its line before the fork that is being
    built, and the branches of that fork closed so far). */
module HoneyParse {
  import opened SgfBase
  import opened SgfLexer
  import opened HoneyTree

  /** An open branch under the one being filled: its line is `prefix` followed
      by the fork whose closed branches are `prev` and whose last branch is the
      one open above it. */
  datatype Fork = Fork(prefix: Line, prev: seq<Branch>)

  /** `curr_node`: none; the last element of the branch being filled; or, right
      after a branch start, the element of the branch under it that the new
      branch hangs from (the node before the fork, or the fork itself). */
  datatype Cur = NoCur | CurTop | CurBelow(atFork: bool)

  /** The handler's fields: the finished games, and the game being built as
      the open branches under the one being filled (`branch_stack`). */
  datatype Builder = Builder(done: seq<Line>, below: seq<Fork>, top: Option<Line>, cur: Cur)

  const Fresh: Builder := Builder([], [], None, NoCur)

  function Close(f: Fork, t: Line): Line
  {
    f.prefix + [Variants(f.prev + [Branch(t)])]
  }

  /** The game as the open branches describe it. */
  function Plug(below: seq<Fork>, t: Line): Line
    decreases |below|
  {
    if below == [] then t else Plug(below[..|below| - 1], Close(below[|below| - 1], t))
  }

  /** `self.games`: the finished games and the one being built, if any. */
  function Games(b: Builder): seq<Line>
  {
    b.done + (if b.top.Some? then [Plug(b.below, b.top.value)] else [])
  }

  /** The open branch ends with a node, from which the new fork hangs. */
  predicate HangsFromNode(f: Fork)
  {
    |f.prefix| > 0 && f.prefix[|f.prefix| - 1].Node?
  }

  /** The states the handler can reach from a fresh one through the callbacks
      the lexer fires. */
  predicate Inv(b: Builder)
  {
    (b.top.None? ==> b.below == [] && b.cur == NoCur) &&
    (b.cur == CurTop ==> b.top.Some? && |b.top.value| > 0) &&
    (b.cur.CurBelow? ==>
       b.top == Some([]) && |b.below| > 0 &&
       (!b.cur.atFork ==> HangsFromNode(b.below[|b.below| - 1]))) &&
    (b.cur == NoCur && b.top.Some? ==> b.top == Some([]) && b.below == [])
  }

  /** Python's truth value of `curr_node`: `None` and `{}` are false, a list of
      branches (never empty here) is true. */
  predicate CurTruthy(b: Builder)
    requires Inv(b)
  {
    match b.cur
    case NoCur => false
    case CurTop =>
      var t := b.top.value;
      (match t[|t| - 1]
       case Node(p) => p != map[]
       case Variants(bs) => bs != [])
    case CurBelow(atFork) =>
      var f := b.below[|b.below| - 1];
      atFork || f.prefix[|f.prefix| - 1].props != map[]
  }

  /** `on_game_start`; the lexer fires it only when no game is open. */
  function GameStartOp(b: Builder): (r: Builder)
    requires Inv(b) && b.top.None?
    ensures Inv(r) && Games(r) == Games(b) + [[]]
  {
    b.(top := Some([]))
  }

  /** `on_game_stop`. */
  function GameStopOp(b: Builder): (r: Result<Builder>)
    requires Inv(b)
    ensures r.Ok? ==> Inv(r.value)
    ensures r.Ok? <==> b.top.Some? && b.below == [] && CurTruthy(b)
    ensures r.Ok? ==> Games(r.value) == Games(b) && r.value.top.None?
  {
    if b.top.None? || b.below != [] then Err(SgfParseError("Invalid end of the game."))
    else if !CurTruthy(b) then Err(SgfParseError("Empty game."))
    else Ok(Builder(b.done + [b.top.value], [], None, NoCur))
  }

  /** `on_node`: a fresh empty node at the end of the branch being filled. */
  function NodeOp(b: Builder): (r: Result<Builder>)
    requires Inv(b)
    ensures r.Ok? ==> Inv(r.value)
    ensures r.Ok? <==> b.top.Some?
    ensures r.Ok? ==> r.value.top == Some(b.top.value + [Node(map[])]) && r.value.cur == CurTop
  {
    if b.done == [] && b.top.None? then Err(SgfParseError("No current game."))
    else if b.top.None? then Err(Crash("IndexError"))
    else Ok(b.(top := Some(b.top.value + [Node(map[])]), cur := CurTop))
  }

  /** `on_property(name, value)` on the current node. */
  function PropertyOp(b: Builder, name: string, value: string): (r: Result<Builder>)
    requires Inv(b)
    ensures r.Ok? ==> Inv(r.value)
    ensures r == Err(SgfParseError("No current node.")) <==> b.cur == NoCur
    ensures r.Ok? ==> r.value.done == b.done && |r.value.below| == |b.below| && r.value.cur == b.cur
    ensures b.cur == CurTop && b.top.value[|b.top.value| - 1].Node? ==>
      var t := b.top.value; var p := t[|t| - 1].props;
      (r == Err(SgfParseError("Duplicate property.")) <==> name in p) &&
      (r.Ok? <==> name !in p) &&
      (r.Ok? ==> r.value.top == Some(t[..|t| - 1] + [Node(p[name := value])]))
  {
    match b.cur
    case NoCur => Err(SgfParseError("No current node."))
    case CurTop =>
      var t := b.top.value;
      var last := t[|t| - 1];
      if last.Variants? then Err(Crash("AttributeError"))
      else if name in last.props then Err(SgfParseError("Duplicate property."))
      else Ok(b.(top := Some(t[..|t| - 1] + [Node(last.props[name := value])])))
    case CurBelow(atFork) =>
      if atFork then Err(Crash("AttributeError"))
      else
        var f := b.below[|b.below| - 1];
        var p := f.prefix[|f.prefix| - 1].props;
        if name in p then Err(SgfParseError("Duplicate property."))
        else
          var f' := f.(prefix := f.prefix[..|f.prefix| - 1] + [Node(p[name := value])]);
          Ok(b.(below := b.below[..|b.below| - 1] + [f']))
  }

  /** `on_branch_start`: a new empty branch, in the fork that ends the branch
      being filled if there is one, otherwise in a new fork appended to it. */
  function BranchStartOp(b: Builder): (r: Result<Builder>)
    requires Inv(b)
    ensures r.Ok? ==> Inv(r.value) && |r.value.below| == |b.below| + 1
    ensures r.Ok? <==> b.top.Some? && b.top.value != []
    ensures r.Ok? ==> r.value.done == b.done && r.value.top == Some([])
  {
    if b.done == [] && b.top.None? then Err(SgfParseError("No current game."))
    else if b.top.None? || b.top.value == [] then Err(Crash("IndexError"))
    else
      var t := b.top.value;
      var last := t[|t| - 1];
      if last.Variants? then
        Ok(b.(below := b.below + [Fork(t[..|t| - 1], last.branches)], top := Some([]), cur := CurBelow(true)))
      else
        Ok(b.(below := b.below + [Fork(t, [])], top := Some([]), cur := CurBelow(false)))
  }

  /** `on_branch_stop`: the branch being filled is closed into its fork, and
      the current node becomes the last element of the enclosing branch. */
  function BranchStopOp(b: Builder): (r: Result<Builder>)
    requires Inv(b)
    ensures r.Ok? ==> Inv(r.value) && |r.value.below| + 1 == |b.below|
    ensures r.Ok? <==> b.top.Some? && b.below != []
    ensures r.Ok? ==> Games(r.value) == Games(b) && r.value.cur == CurTop
  {
    if b.top.None? || b.below == [] then Err(SgfParseError("No current branch."))
    else
      var enclosing := Close(b.below[|b.below| - 1], b.top.value);
      if enclosing == [] then Err(SgfParseError("Empty branch."))
      else Ok(b.(below := b.below[..|b.below| - 1], top := Some(enclosing), cur := CurTop))
  }

  function Handle(b: Builder, e: Event): (r: Result<Builder>)
    requires Inv(b) && (e == GameStart ==> b.top.None?)
    ensures r.Ok? ==> Inv(r.value)
  {
    match e
    case GameStart => Ok(GameStartOp(b))
    case GameStop => GameStopOp(b)
    case NodeStart => NodeOp(b)
    case Property(name, value) => PropertyOp(b, name, value)
    case BranchStart => BranchStartOp(b)
    case BranchStop => BranchStopOp(b)
  }

  /** `get_result`. */
  function ResultOf(b: Builder): (r: Result<seq<Line>>)
    ensures r.Err? <==> Games(b) == []
    ensures r.Ok? ==> r.value == Games(b)
    ensures r.Err? ==> r.error == SgfParseError("Empty collection.")
  {
    if Games(b) == [] then Err(SgfParseError("Empty collection.")) else Ok(Games(b))
  }

  /** The lexer and the handler together. */
  datatype Machine = Machine(lx: Lexer, b: Builder)

  /** What ties the lexer's variables to the handler: outside a game the
      lexer is in the collection state, and its depth counts the open
      branches. */
  predicate Linked(m: Machine)
  {
    Inv(m.b) && (m.lx.state == Collection <==> m.b.top.None?) && m.lx.depth == |m.b.below|
  }

  const Begin: Machine := Machine(Start, Fresh)

  function Step(m: Machine, c: char): (r: Result<Machine>)
    requires Linked(m)
    ensures r.Ok? ==> Linked(r.value)
  {
    var o := LexStep(m.lx, c, true);
    match o.event
    case None => Ok(Machine(o.next, m.b))
    case Some(e) =>
      match Handle(m.b, e)
      case Err(err) => Err(err)
      case Ok(b') => Ok(Machine(o.next, b'))
  }

  function Run(m: Machine, s: string): (r: Result<Machine>)
    requires Linked(m)
    ensures r.Ok? ==> Linked(r.value)
    decreases |s|
  {
    if s == [] then Ok(m)
    else
      match Step(m, s[0])
      case Err(e) => Err(e)
      case Ok(m') => Run(m', s[1..])
  }

  /** `parseSgf(s)`. */
  function ParseSpec(s: string): (r: Result<seq<Line>>)
    ensures r.Ok? ==> |r.value| > 0
  {
    match Run(Begin, s)
    case Err(e) => Err(e)
    case Ok(m) => ResultOf(m.b)
  }

  /** Reading `s + t` is reading `s`, then `t` from where `s` left off; an
      error in `s` ends the run. */
  lemma {:induction false} RunAppend(m: Machine, s: string, t: string)
    requires Linked(m)
    ensures Run(m, s + t) == match Run(m, s) case Err(e) => Err(e) case Ok(m') => Run(m', t)
    decreases |s|
  {
    if s == [] {
      assert s + t == t;
    } else {
      assert (s + t)[0] == s[0] && (s + t)[1..] == s[1..] + t;
      match Step(m, s[0])
      case Err(_) =>
      case Ok(m') => RunAppend(m', s[1..], t);
    }
  }

  /** Outside a game everything but `(` is skipped. */
  lemma {:induction false} CollectionSkips(m: Machine, s: string)
    requires Linked(m) && m.lx.state == Collection && '(' !in s
    ensures Run(m, s) == Ok(m)
    decreases |s|
  {
    if s != [] {
      assert s[0] != '(' && '(' !in s[1..];
      CollectionSkips(m, s[1..]);
    }
  }

  /** Between nodes everything but `;`, `(` and `)` is skipped. */
  lemma {:induction false} SeqSkips(m: Machine, s: string)
    requires Linked(m) && m.lx.state == Seq
    requires forall i :: 0 <= i < |s| ==> s[i] != ';' && s[i] != '(' && s[i] != ')'
    ensures Run(m, s) == Ok(m)
    decreases |s|
  {
    if s != [] {
      SeqSkips(m, s[1..]);
    }
  }

  /** Text without `;`, `(` and `)`, white space in particular, may be put
      wherever the parser stands outside a game or between nodes: the parse
      is the same. */
  lemma SkippedTextIgnored(s: string, w: string, t: string)
    requires Run(Begin, s).Ok?
    requires Run(Begin, s).value.lx.state == Collection || Run(Begin, s).value.lx.state == Seq
    requires forall i :: 0 <= i < |w| ==> w[i] != ';' && w[i] != '(' && w[i] != ')'
    ensures ParseSpec(s + w + t) == ParseSpec(s + t)
  {
    var m := Run(Begin, s).value;
    if m.lx.state == Collection {
      CollectionSkips(m, w);
    } else {
      SeqSkips(m, w);
    }
    RunAppend(Begin, s, w);
    RunAppend(Begin, s + w, t);
    RunAppend(Begin, s, t);
  }

  /** After a `)` read outside a property value the parser is outside a
      game or between nodes, so such text may follow any `)` that closes a
      game or a branch. */
  lemma SkippedAfterClose(s: string, w: string, t: string)
    requires Run(Begin, s).Ok? && Run(Begin, s).value.lx.state != InProperty
    requires Run(Begin, s + ")").Ok?
    requires forall i :: 0 <= i < |w| ==> w[i] != ';' && w[i] != '(' && w[i] != ')'
    ensures ParseSpec(s + ")" + w + t) == ParseSpec(s + ")" + t)
  {
    var m := Run(Begin, s).value;
    RunAppend(Begin, s, ")");
    assert ")"[0] == ')' && ")"[1..] == "";
    var m' := Step(m, ')').value;
    assert Run(Begin, s + ")") == Ok(m');
    assert m'.lx.state == Collection || m'.lx.state == Seq;
    SkippedTextIgnored(s + ")", w, t);
  }

  /** A text without `(` holds no game: "Empty collection.". */
  lemma NoGameIsEmptyCollection(s: string)
    requires '(' !in s
    ensures ParseSpec(s) == Err(SgfParseError("Empty collection."))
  {
    CollectionSkips(Begin, s);
  }

  /** A game without a node, such as `()`, is refused with "Empty game.". */
  lemma GameWithoutNodes(w: string)
    requires forall i :: 0 <= i < |w| ==> w[i] != ';' && w[i] != '(' && w[i] != ')'
    ensures ParseSpec("(" + w + ")") == Err(SgfParseError("Empty game."))
  {
    var m1 := Machine(Begin.lx.(state := Seq), Fresh.(top := Some([])));
    assert Run(Begin, "(") == Ok(m1) by {
      assert "("[1..] == "";
    }
    RunAppend(Begin, "(", w);
    SeqSkips(m1, w);
    RunAppend(Begin, "(" + w, ")");
    assert Run(m1, ")") == Err(SgfParseError("Empty game.")) by {
      assert ")"[0] == ')';
    }
  }

  /** Inside a node, the characters of a name that holds no `;`, `[`, `(`
      or `)` are only gathered. */
  lemma {:induction false} NodeGathers(m: Machine, w: string)
    requires Linked(m) && m.lx.state == InNode
    requires forall i :: 0 <= i < |w| ==> w[i] != ';' && w[i] != '[' && w[i] != '(' && w[i] != ')'
    ensures Run(m, w) == Ok(m.(lx := m.lx.(acc := m.lx.acc + w)))
    decreases |w|
  {
    if w == [] {
      assert m.lx.acc + w == m.lx.acc;
      assert m.lx == m.lx.(acc := m.lx.acc);
    } else {
      var m' := m.(lx := m.lx.(acc := m.lx.acc + [w[0]]));
      NodeGathers(m', w[1..]);
      assert m.lx.acc + [w[0]] + w[1..] == m.lx.acc + w;
    }
  }

  /** Inside a property value everything but `]` is gathered verbatim. */
  lemma {:induction false} ValueGathers(m: Machine, w: string)
    requires Linked(m) && m.lx.state == InProperty && ']' !in w
    ensures Run(m, w) == Ok(m.(lx := m.lx.(acc := m.lx.acc + w)))
    decreases |w|
  {
    if w == [] {
      assert m.lx.acc + w == m.lx.acc;
      assert m.lx == m.lx.(acc := m.lx.acc);
    } else {
      assert w[0] != ']' && ']' !in w[1..];
      var m' := m.(lx := m.lx.(acc := m.lx.acc + [w[0]]));
      ValueGathers(m', w[1..]);
      assert m.lx.acc + [w[0]] + w[1..] == m.lx.acc + w;
    }
  }

  /** Reading `name[value]` inside a node: a property with an empty name is
      dropped; otherwise it is handed to `on_property`, which refuses a name
      the current node already has. */
  lemma ReadProperty(m: Machine, name: string, value: string)
    requires Linked(m) && m.lx.state == InNode && m.lx.acc == ""
    requires forall i :: 0 <= i < |name| ==> name[i] != ';' && name[i] != '[' && name[i] != '(' && name[i] != ')'
    requires ']' !in value
    ensures var done := m.lx.(propName := name);
      Run(m, name + "[" + value + "]") ==
        if name == "" then Ok(m.(lx := done))
        else match PropertyOp(m.b, name, value)
          case Err(e) => Err(e)
          case Ok(b') => Ok(Machine(done, b'))
  {
    NodeGathers(m, name);
    var m1 := m.(lx := m.lx.(acc := m.lx.acc + name));
    assert m.lx.acc + name == name;
    var m2 := m.(lx := m.lx.(propName := name, acc := "", state := InProperty));
    assert Run(m1, "[") == Ok(m2) by {
      assert "["[0] == '[' && "["[1..] == "";
    }
    ValueGathers(m2, value);
    var m3 := m2.(lx := m2.lx.(acc := value));
    assert m2.lx.acc + value == value;
    assert Run(m3, "]") == (if name == "" then Ok(m.(lx := m.lx.(propName := name)))
      else match PropertyOp(m.b, name, value)
        case Err(e) => Err(e)
        case Ok(b') => Ok(Machine(m.lx.(propName := name), b'))) by {
      assert "]"[0] == ']' && "]"[1..] == "";
    }
    RunAppend(m, name, "[");
    RunAppend(m, name + "[", value);
    RunAppend(m, name + "[" + value, "]");
  }

  /** Giving the current node a property it already has is refused, whatever
      the value. */
  lemma DuplicateProperty(m: Machine, name: string, v: string, w: string)
    requires Linked(m) && m.lx.state == InNode && m.lx.acc == "" && m.b.cur == CurTop
    requires forall i :: 0 <= i < |name| ==> name[i] != ';' && name[i] != '[' && name[i] != '(' && name[i] != ')'
    requires name != "" && ']' !in v && ']' !in w
    requires PropertyOp(m.b, name, v).Ok?
    ensures Run(m, (name + "[" + v + "]") + (name + "[" + w + "]")) == Err(SgfParseError("Duplicate property."))
  {
    var s1 := name + "[" + v + "]";
    var s2 := name + "[" + w + "]";
    var t := m.b.top.value;
    assert t[|t| - 1].Node?;
    var b' := PropertyOp(m.b, name, v).value;
    var m' := Machine(m.lx.(propName := name), b');
    ReadProperty(m, name, v);
    assert Run(m, s1) == Ok(m');
    var t' := b'.top.value;
    assert t' == t[..|t| - 1] + [Node(t[|t| - 1].props[name := v])];
    assert t'[|t'| - 1].Node? && name in t'[|t'| - 1].props;
    assert Linked(m') && m'.lx.state == InNode && m'.lx.acc == "" && b'.cur == CurTop;
    assert PropertyOp(b', name, w) == Err(SgfParseError("Duplicate property."));
    ReadProperty(m', name, w);
    RunAppend(m, s1, s2);
  }

  /** `SgfHandler`: the handler object whose callbacks update its fields in
      place. Each callback either raises (the error is returned and the
      fields are left as they were) or moves to the state the corresponding
      function above describes. */
  class SgfHandler {
    var done: seq<Line>
    var below: seq<Fork>
    var top: Option<Line>
    var cur: Cur

    function State(): Builder
      reads this
    {
      Builder(done, below, top, cur)
    }

    predicate Valid()
      reads this
    {
      Inv(State())
    }

    constructor ()
      ensures State() == Fresh && Valid()
    {
      done, below, top, cur := [], [], None, NoCur;
    }

    method OnGameStart()
      requires Valid() && top.None?
      modifies this
      ensures State() == GameStartOp(old(State())) && Valid()
    {
      top := Some([]);
    }

    method OnGameStop() returns (err: Option<Error>)
      requires Valid()
      modifies this
      ensures Valid()
      ensures GameStopOp(old(State())).Err? ==> err == Some(GameStopOp(old(State())).error) && State() == old(State())
      ensures GameStopOp(old(State())).Ok? ==> err == None && State() == GameStopOp(old(State())).value
    {
      if top.None? || below != [] {
        return Some(SgfParseError("Invalid end of the game."));
      }
      if !CurTruthy(State()) {
        return Some(SgfParseError("Empty game."));
      }
      done := done + [top.value];
      below, top, cur := [], None, NoCur;
      err := None;
    }

    method OnNode() returns (err: Option<Error>)
      requires Valid()
      modifies this
      ensures Valid()
      ensures NodeOp(old(State())).Err? ==> err == Some(NodeOp(old(State())).error) && State() == old(State())
      ensures NodeOp(old(State())).Ok? ==> err == None && State() == NodeOp(old(State())).value
    {
      if done == [] && top.None? {
        return Some(SgfParseError("No current game."));
      }
      if top.None? {
        return Some(Crash("IndexError"));
      }
      top := Some(top.value + [Node(map[])]);
      cur := CurTop;
      err := None;
    }

    method OnProperty(name: string, value: string) returns (err: Option<Error>)
      requires Valid()
      modifies this
      ensures Valid()
      ensures PropertyOp(old(State()), name, value).Err? ==>
        err == Some(PropertyOp(old(State()), name, value).error) && State() == old(State())
      ensures PropertyOp(old(State()), name, value).Ok? ==>
        err == None && State() == PropertyOp(old(State()), name, value).value
    {
      if cur == NoCur {
        return Some(SgfParseError("No current node."));
      }
      var props: Props;
      if cur == CurTop {
        var last := top.value[|top.value| - 1];
        if last.Variants? {
          return Some(Crash("AttributeError"));
        }
        props := last.props;
      } else {
        if cur.atFork {
          return Some(Crash("AttributeError"));
        }
        var f := below[|below| - 1];
        props := f.prefix[|f.prefix| - 1].props;
      }
      if name in props {
        return Some(SgfParseError("Duplicate property."));
      }
      props := props[name := value];
      if cur == CurTop {
        top := Some(top.value[..|top.value| - 1] + [Node(props)]);
      } else {
        var f := below[|below| - 1];
        below := below[..|below| - 1] + [f.(prefix := f.prefix[..|f.prefix| - 1] + [Node(props)])];
      }
      err := None;
    }

    method OnBranchStart() returns (err: Option<Error>)
      requires Valid()
      modifies this
      ensures Valid()
      ensures BranchStartOp(old(State())).Err? ==> err == Some(BranchStartOp(old(State())).error) && State() == old(State())
      ensures BranchStartOp(old(State())).Ok? ==> err == None && State() == BranchStartOp(old(State())).value
    {
      if done == [] && top.None? {
        return Some(SgfParseError("No current game."));
      }
      if top.None? || top.value == [] {
        return Some(Crash("IndexError"));
      }
      var branch := top.value;
      if branch[|branch| - 1].Variants? {
        below := below + [Fork(branch[..|branch| - 1], branch[|branch| - 1].branches)];
        cur := CurBelow(true);
      } else {
        below := below + [Fork(branch, [])];
        cur := CurBelow(false);
      }
      top := Some([]);
      err := None;
    }

    method OnBranchStop() returns (err: Option<Error>)
      requires Valid()
      modifies this
      ensures Valid()
      ensures BranchStopOp(old(State())).Err? ==> err == Some(BranchStopOp(old(State())).error) && State() == old(State())
      ensures BranchStopOp(old(State())).Ok? ==> err == None && State() == BranchStopOp(old(State())).value
    {
      if top.None? || below == [] {
        return Some(SgfParseError("No current branch."));
      }
      var branch := Close(below[|below| - 1], top.value);
      if branch == [] {
        return Some(SgfParseError("Empty branch."));
      }
      below := below[..|below| - 1];
      top := Some(branch);
      cur := CurTop;
      err := None;
    }

    method GetResult() returns (r: Result<seq<Line>>)
      ensures r == ResultOf(State())
    {
      var games := Games(State());
      if games == [] {
        return Err(SgfParseError("Empty collection."));
      }
      r := Ok(games);
    }
  }

  /** One pass of the loop of `_runParser`: the rule of the lexer that
      takes `c`, and the callback it fires. */
  method Feed(h: SgfHandler, lx: Lexer, c: char) returns (lx': Lexer, err: Option<Error>)
    requires h.Valid() && Linked(Machine(lx, h.State()))
    modifies h
    ensures h.Valid()
    ensures Step(Machine(lx, old(h.State())), c).Err? ==> err == Some(Step(Machine(lx, old(h.State())), c).error)
    ensures Step(Machine(lx, old(h.State())), c).Ok? ==> err == None && Step(Machine(lx, old(h.State())), c).value == Machine(lx', h.State())
  {
    var state, acc, depth, propName := lx.state, lx.acc, lx.depth, lx.propName;
    err := None;
    if state == Collection && c == '(' {
      h.OnGameStart();
      state := Seq;
    } else if state == Seq && c == ';' {
      err := h.OnNode();
      state := InNode;
    } else if state == InNode && c == ';' {
      err := h.OnNode();
    } else if state == InNode && c == '[' {
      propName, acc, state := acc, "", InProperty;
    } else if (state == Seq || state == InNode) && c == '(' {
      acc, depth, state := "", depth + 1, Seq;
      err := h.OnBranchStart();
    } else if (state == InNode || state == Seq) && c == ')' {
      acc := "";
      if depth == 0 {
        err := h.OnGameStop();
        state := Collection;
      } else {
        err := h.OnBranchStop();
        depth, state := depth - 1, Seq;
      }
    } else if state == InProperty && c == ']' {
      var value := acc;
      acc, state := "", InNode;
      if propName != "" {
        err := h.OnProperty(propName, value);
      }
    } else if state == InNode || state == InProperty {
      acc := acc + [c];
    }
    lx' := Lexer(state, acc, depth, propName);
  }

  /** `_runParser(sgf, handler)`: the lexer loop, firing the handler's
      callbacks; it stops at the first callback that raises. */
  method RunParser(sgf: string, h: SgfHandler) returns (err: Option<Error>)
    requires h.Valid() && h.top.None?
    modifies h
    ensures Run(Machine(Start, old(h.State())), sgf).Err? ==> err == Some(Run(Machine(Start, old(h.State())), sgf).error)
    ensures Run(Machine(Start, old(h.State())), sgf).Ok? ==> err == None && h.State() == Run(Machine(Start, old(h.State())), sgf).value.b
  {
    ghost var m0 := Machine(Start, h.State());
    var lx := Start;
    var i := 0;
    while i < |sgf|
      invariant 0 <= i <= |sgf|
      invariant Linked(Machine(lx, h.State()))
      invariant Run(m0, sgf) == Run(Machine(lx, h.State()), sgf[i..])
    {
      lx, err := Feed(h, lx, sgf[i]);
      if err.Some? {
        return err;
      }
      assert sgf[i..][1..] == sgf[i + 1..];
      i := i + 1;
    }
    err := None;
  }

  /** `parseSgf(sgf)`: the collection, or the first error raised. */
  method ParseSgf(sgf: string) returns (r: Result<seq<Line>>)
    ensures r == ParseSpec(sgf)
  {
    var h := new SgfHandler();
    var err := RunParser(sgf, h);
    if err.Some? {
      return Err(err.value);
    }
    r := h.GetResult();
  }
}
