/** The character state machine `_runParser` that both Python generations
    (sgf.py and honey/sgf.py) share word for word, except that honey/sgf.py
    reports a property only when its name is not empty. One step reads one
    character and names the handler callback it fires, if any. */
module SgfLexer {
  import opened SgfBase

  datatype LexState = Collection | Seq | InNode | InProperty

  /** The handler callbacks: `on_game_start`, `on_game_stop`, `on_node`,
      `on_property(name, value)`, `on_branch_start`, `on_branch_stop`. */
  datatype Event =
    | GameStart
    | GameStop
    | NodeStart
    | Property(name: string, value: string)
    | BranchStart
    | BranchStop

  /** The loop variables `state`, `acc`, `depth` and `prop_name` (`prop_name`
      starts as `None`, which is only ever read after a `[` has set it). */
  datatype Lexer = Lexer(state: LexState, acc: string, depth: int, propName: string)

  datatype LexOut = LexOut(next: Lexer, event: Option<Event>)

  const Start: Lexer := Lexer(Collection, "", 0, "")

  /** One iteration of the loop. The source tries its rules in order; no two
      apply to the same state, so they are grouped by state here. Characters
      no rule takes are kept in the accumulator inside a node or a property
      value and dropped elsewhere. `skipUnnamed` is honey/sgf.py's
      `if prop_name:` before `on_property`. */
  function LexStep(lx: Lexer, c: char, skipUnnamed: bool): (o: LexOut)
    ensures o.event.Some? ==> Reacts(lx.state, c)
    ensures o.next.depth == lx.depth + (if o.event == Some(BranchStart) then 1 else if o.event == Some(BranchStop) then -1 else 0)
    ensures o.event == Some(GameStart) <==> lx.state == Collection && c == '('
    ensures o.event == Some(GameStop) <==> (lx.state == Seq || lx.state == InNode) && c == ')' && lx.depth == 0
    ensures o.next.state == Collection <==> o.event == Some(GameStop) || (lx.state == Collection && c != '(')
  {
    match lx.state
    case Collection =>
      if c == '(' then LexOut(lx.(state := Seq), Some(GameStart)) else LexOut(lx, None)
    case Seq =>
      if c == ';' then LexOut(lx.(state := InNode), Some(NodeStart))
      else if c == '(' then OpenBranch(lx)
      else if c == ')' then CloseBranch(lx)
      else LexOut(lx, None)
    case InNode =>
      if c == ';' then LexOut(lx, Some(NodeStart))
      else if c == '[' then LexOut(lx.(propName := lx.acc, acc := "", state := InProperty), None)
      else if c == '(' then OpenBranch(lx)
      else if c == ')' then CloseBranch(lx)
      else LexOut(lx.(acc := lx.acc + [c]), None)
    case InProperty =>
      if c == ']' then
        LexOut(lx.(acc := "", state := InNode),
               if skipUnnamed && lx.propName == "" then None else Some(Property(lx.propName, lx.acc)))
      else LexOut(lx.(acc := lx.acc + [c]), None)
  }

  function OpenBranch(lx: Lexer): LexOut
  {
    LexOut(lx.(acc := "", depth := lx.depth + 1, state := Seq), Some(BranchStart))
  }

  function CloseBranch(lx: Lexer): LexOut
  {
    if lx.depth == 0 then LexOut(lx.(acc := "", state := Collection), Some(GameStop))
    else LexOut(lx.(acc := "", depth := lx.depth - 1, state := Seq), Some(BranchStop))
  }

  /** The characters the machine reacts to in a given state. */
  predicate Reacts(st: LexState, c: char)
  {
    match st
    case Collection => c == '('
    case Seq => c == ';' || c == '(' || c == ')'
    case InNode => c == ';' || c == '[' || c == '(' || c == ')'
    case InProperty => c == ']'
  }

  /** Between a game's nodes and outside the games, a character the machine
      does not react to is dropped without a trace; inside a node or a
      property value it only grows the accumulator. */
  lemma LexIgnores(lx: Lexer, c: char, skipUnnamed: bool)
    requires !Reacts(lx.state, c)
    ensures LexStep(lx, c, skipUnnamed).event == None
    ensures LexStep(lx, c, skipUnnamed).next ==
      if lx.state == Collection || lx.state == Seq then lx else lx.(acc := lx.acc + [c])
  {
  }
}
