/** The browser-side SGF lexer `sgfParse` of static/js/hsgf.js: a character
    state machine that reports game properties, moves and branch boundaries to a
    handler and stops at the end of the first game. The handler's callbacks are
    modelled as the list of events they receive, in order. */
module HsgfLexer {

  datatype LexState = Collection | Seq | Node | Prop

  datatype JsEvent =
    | GameProperty(name: string, value: string)
    | Move(name: string, value: string)
    | BranchStart
    | BranchStop

  datatype JsState = JsState(lex: LexState, depth: int, propName: string, accum: string, isFirstNode: bool)

  /** What one character does: the events it emits, the next state, and whether
      the lexer returns (a `)` that closes the first game). */
  datatype StepOut = StepOut(events: seq<JsEvent>, next: JsState, stop: bool)

  /** The whole run on a string: every event emitted, the state reached and
      whether the lexer returned early. */
  datatype JsRun = JsRun(events: seq<JsEvent>, final: JsState, stopped: bool)

  const Init: JsState := JsState(Collection, 0, "", "", true)

  /** One iteration of the loop body. The source tries its rules in order; no
      two rules apply to the same state, so they are grouped here by state. A
      character no rule takes is appended to the accumulator. */
  function Step(st: JsState, c: char): (o: StepOut)
    ensures o.stop <==> st.lex == Node && c == ')' && st.depth == 0
    ensures |o.events| <= 1
    ensures o.events != [] && (o.events[0].GameProperty? || o.events[0].Move?) ==>
      st.lex == Prop && c == ']' && o.events[0].name == st.propName && o.events[0].value == st.accum
    ensures o.events != [] && o.events[0].GameProperty? ==> st.isFirstNode
  {
    var keep := StepOut([], st.(accum := st.accum + [c]), false);
    match st.lex
    case Collection =>
      if c == '(' then StepOut([], st.(lex := Seq), false) else keep
    case Seq =>
      if c == ';' then StepOut([], st.(lex := Node), false)
      else if c == '(' then OpenBranch(st)
      else keep
    case Node =>
      if c == ';' then StepOut([], st.(isFirstNode := false), false)
      else if c == '[' then StepOut([], st.(propName := st.accum, accum := "", lex := Prop), false)
      else if c == '(' then OpenBranch(st)
      else if c == ')' then
        if st.depth == 0 then StepOut([], st.(accum := ""), true)
        else StepOut([BranchStop], st.(accum := "", depth := st.depth - 1, lex := Seq), false)
      else keep
    case Prop =>
      if c == ']' then
        StepOut([if st.isFirstNode then GameProperty(st.propName, st.accum) else Move(st.propName, st.accum)],
                st.(accum := "", lex := Node), false)
      else keep
  }

  function OpenBranch(st: JsState): StepOut
  {
    StepOut([BranchStart], st.(accum := "", depth := st.depth + 1, lex := Seq, isFirstNode := false), false)
  }

  function Exec(st: JsState, s: string): (r: JsRun)
    ensures |r.events| <= |s|
    ensures r.stopped ==> ')' in s
    decreases |s|
  {
    if s == [] then JsRun([], st, false)
    else
      var o := Step(st, s[0]);
      if o.stop then JsRun(o.events, o.next, true)
      else
        var r := Exec(o.next, s[1..]);
        JsRun(o.events + r.events, r.final, r.stopped)
  }

  /** One pass of the loop body of `sgfParse` on character `c`: the variables
      it leaves, the callbacks it makes, and whether it returns. */
  method Feed(state: LexState, depth: int, propName: string, accum: string, isFirstNode: bool, c: char)
    returns (state': LexState, depth': int, propName': string, accum': string, isFirstNode': bool,
             events: seq<JsEvent>, stop: bool)
    ensures Step(JsState(state, depth, propName, accum, isFirstNode), c) ==
      StepOut(events, JsState(state', depth', propName', accum', isFirstNode'), stop)
  {
    state', depth', propName', accum', isFirstNode' := state, depth, propName, accum, isFirstNode;
    events, stop := [], false;
    if state == Collection && c == '(' {
      state' := Seq;
    } else if state == Seq && c == ';' {
      state' := Node;
    } else if state == Node && c == ';' {
      state' := Node;
      isFirstNode' := false;
    } else if state == Node && c == '[' {
      propName' := accum;
      accum' := "";
      state' := Prop;
    } else if (state == Seq || state == Node) && c == '(' {
      accum' := "";
      depth' := depth + 1;
      state' := Seq;
      isFirstNode' := false;
      events := [BranchStart];
    } else if state == Node && c == ')' {
      accum' := "";
      if depth == 0 {
        // only the first game is parsed
        stop := true;
        return;
      }
      events := [BranchStop];
      depth' := depth - 1;
      state' := Seq;
    } else if state == Prop && c == ']' {
      var propValue := accum;
      accum' := "";
      state' := Node;
      if isFirstNode {
        events := [GameProperty(propName, propValue)];
      } else {
        events := [Move(propName, propValue)];
      }
    } else {
      accum' := accum + [c];
    }
  }

  /** `sgfParse(input, handler)`: the events the handler receives. */
  method SgfParse(input: string) returns (events: seq<JsEvent>)
    ensures events == Exec(Init, input).events
  {
    var isFirstNode := true;
    var depth := 0;
    var propName := "";
    var accum := "";
    var state := Collection;
    events := [];
    var i := 0;
    while i < |input|
      invariant 0 <= i <= |input|
      invariant Exec(Init, input).events ==
        events + Exec(JsState(state, depth, propName, accum, isFirstNode), input[i..]).events
    {
      ghost var st := JsState(state, depth, propName, accum, isFirstNode);
      assert input[i..] == [input[i]] + input[i + 1..];
      ExecCons(st, input[i], input[i + 1..]);
      var more, stop;
      state, depth, propName, accum, isFirstNode, more, stop := Feed(state, depth, propName, accum, isFirstNode, input[i]);
      if stop {
        return;
      }
      events := events + more;
      i := i + 1;
    }
  }

  /** Running over a concatenation runs over the first part and, unless the
      lexer returned in it, over the second part from the state it reached. */
  lemma {:induction false} ExecAppend(st: JsState, a: string, b: string)
    ensures Exec(st, a + b) ==
      var ra := Exec(st, a);
      if ra.stopped then ra
      else var rb := Exec(ra.final, b); JsRun(ra.events + rb.events, rb.final, rb.stopped)
    decreases |a|
  {
    if a == [] {
      assert a + b == b;
    } else {
      var o := Step(st, a[0]);
      assert (a + b)[0] == a[0] && (a + b)[1..] == a[1..] + b;
      if !o.stop {
        ExecAppend(o.next, a[1..], b);
        var ra := Exec(o.next, a[1..]);
        assert Exec(st, a) == JsRun(o.events + ra.events, ra.final, ra.stopped);
        if !ra.stopped {
          var rb := Exec(ra.final, b);
          assert o.events + (ra.events + rb.events) == (o.events + ra.events) + rb.events;
        }
      }
    }
  }

  /** Once the lexer has returned, nothing after that point is read. */
  lemma OnlyFirstGame(st: JsState, a: string, rest: string)
    requires Exec(st, a).stopped
    ensures Exec(st, a + rest) == Exec(st, a)
  {
    ExecAppend(st, a, rest);
  }

  function Starts(evs: seq<JsEvent>): int
  {
    if evs == [] then 0 else (if evs[0] == BranchStart then 1 else 0) + Starts(evs[1..])
  }

  function Stops(evs: seq<JsEvent>): int
  {
    if evs == [] then 0 else (if evs[0] == BranchStop then 1 else 0) + Stops(evs[1..])
  }

  lemma {:induction false} CountsAppend(a: seq<JsEvent>, b: seq<JsEvent>)
    ensures Starts(a + b) == Starts(a) + Starts(b) && Stops(a + b) == Stops(a) + Stops(b)
  {
    if a != [] {
      assert (a + b)[0] == a[0] && (a + b)[1..] == a[1..] + b;
      CountsAppend(a[1..], b);
    } else {
      assert a + b == b;
    }
  }

  /** One character moves the depth by the branch starts minus the branch
      stops it reports, and never below zero. */
  lemma StepBalance(st: JsState, c: char)
    requires st.depth >= 0
    ensures var o := Step(st, c);
      o.next.depth >= 0 && o.next.depth == st.depth + Starts(o.events) - Stops(o.events)
  {
    var o := Step(st, c);
    assert Starts(o.events) == (if o.events == [BranchStart] then 1 else 0);
    assert Stops(o.events) == (if o.events == [BranchStop] then 1 else 0);
  }

  /** The depth counts the branches opened and not yet closed, and never goes
      below zero: a `)` at depth zero ends the run instead of closing a branch. */
  lemma {:induction false} DepthBalance(st: JsState, s: string)
    requires st.depth >= 0
    ensures var r := Exec(st, s);
      r.final.depth >= 0 && r.final.depth == st.depth + Starts(r.events) - Stops(r.events)
    decreases |s|
  {
    if s != [] {
      var o := Step(st, s[0]);
      StepBalance(st, s[0]);
      if !o.stop {
        DepthBalance(o.next, s[1..]);
        CountsAppend(o.events, Exec(o.next, s[1..]).events);
      }
    }
  }

  predicate IsGameProperty(e: JsEvent) { e.GameProperty? }

  /** Once the first node is over (a second `;` of the first sequence, or any
      `(` opening a branch), every property is reported as a move and no later
      character can make the lexer report a game property again. */
  lemma {:induction false} AfterFirstNodeOnlyMoves(st: JsState, s: string)
    requires !st.isFirstNode
    ensures !Exec(st, s).final.isFirstNode
    ensures forall i :: 0 <= i < |Exec(st, s).events| ==> !IsGameProperty(Exec(st, s).events[i])
    decreases |s|
  {
    if s != [] {
      var o := Step(st, s[0]);
      if !o.stop {
        AfterFirstNodeOnlyMoves(o.next, s[1..]);
      }
    }
  }

  /** While the lexer is still in the first node, it reports every property as
      a game property and emits no branch events. */
  lemma {:induction false} WithinFirstNodeOnlyGameProperties(st: JsState, s: string)
    requires st.depth == 0 && Exec(st, s).final.isFirstNode
    ensures st.isFirstNode
    ensures forall i :: 0 <= i < |Exec(st, s).events| ==> IsGameProperty(Exec(st, s).events[i])
    decreases |s|
  {
    if s != [] {
      var o := Step(st, s[0]);
      if !o.stop {
        if !o.next.isFirstNode {
          AfterFirstNodeOnlyMoves(o.next, s[1..]);
        }
        WithinFirstNodeOnlyGameProperties(o.next, s[1..]);
      }
    }
  }

  predicate Structural(c: char) { c == '(' || c == ')' || c == ';' || c == '[' || c == ']' }

  /** Characters that no rule takes only grow the accumulator. */
  lemma {:induction false} Accumulates(st: JsState, w: string)
    requires forall i :: 0 <= i < |w| ==> !Structural(w[i])
    ensures Exec(st, w) == JsRun([], st.(accum := st.accum + w), false)
    decreases |w|
  {
    if w == [] {
      assert st.accum + w == st.accum;
    } else {
      assert st.accum + w == (st.accum + [w[0]]) + w[1..];
      Accumulates(st.(accum := st.accum + [w[0]]), w[1..]);
    }
  }

  /** A property: its identifier is everything accumulated before the `[`, its
      value everything up to the `]`; it is a game property exactly while the
      lexer is in the first node. */
  lemma ReadProperty(st: JsState, name: string, value: string)
    requires st.lex == Node
    requires forall i :: 0 <= i < |name| ==> !Structural(name[i])
    requires forall i :: 0 <= i < |value| ==> !Structural(value[i])
    ensures Exec(st, name + "[" + value + "]") ==
      JsRun([if st.isFirstNode then GameProperty(st.accum + name, value) else Move(st.accum + name, value)],
            st.(propName := st.accum + name, accum := "", lex := Node), false)
  {
    Accumulates(st, name);
    var s1 := st.(accum := st.accum + name);
    var s2 := s1.(propName := s1.accum, accum := "", lex := Prop);
    assert Exec(s1, "[") == JsRun([], s2, false);
    ExecAppend(st, name, "[");
    assert Exec(st, name + "[") == JsRun([], s2, false);
    Accumulates(s2, value);
    var s3 := s2.(accum := value);
    assert "" + value == value;
    ExecAppend(st, name + "[", value);
    assert Exec(st, name + "[" + value) == JsRun([], s3, false);
    assert Step(s3, ']').events == [if st.isFirstNode then GameProperty(st.accum + name, value) else Move(st.accum + name, value)];
    ExecAppend(st, name + "[" + value, "]");
  }

  /** `(;` from the collection state enters the first node. */
  lemma OpenFirstNode(st: JsState, tail: string)
    requires st.lex == Collection
    ensures Exec(st, "(;" + tail) == Exec(st.(lex := Node), tail)
  {
    assert Step(st, '(') == StepOut([], st.(lex := Seq), false);
    assert Step(st.(lex := Seq), ';') == StepOut([], st.(lex := Node), false);
    assert ("(;" + tail)[1..] == [';'] + tail && ([';'] + tail)[1..] == tail;
  }

  /** The accumulator is not cleared by the opening `(` nor by the first `;`,
      so whatever precedes the game becomes part of the first property name. */
  lemma LeadingTextJoinsFirstName(w: string, name: string, value: string)
    requires forall i :: 0 <= i < |w| ==> !Structural(w[i])
    requires forall i :: 0 <= i < |name| ==> !Structural(name[i])
    requires forall i :: 0 <= i < |value| ==> !Structural(value[i])
    ensures Exec(Init, w + "(;" + name + "[" + value + "]").events == [GameProperty(w + name, value)]
  {
    var tail := name + "[" + value + "]";
    assert w + "(;" + name + "[" + value + "]" == w + ("(;" + tail);
    Accumulates(Init, w);
    assert Init.accum + w == w;
    var s1 := Init.(accum := w);
    OpenFirstNode(s1, tail);
    ReadProperty(s1.(lex := Node), name, value);
    ExecAppend(Init, w, "(;" + tail);
  }

  /** A `)` in the sequence state is not structural: it lands in the
      accumulator. So a first game whose last node is followed by its
      variations does not end at its closing `)`, and a `(` right after it opens
      one more branch instead of a second game. */
  lemma ClosingAfterVariationsDoesNotEnd(st: JsState, rest: string)
    requires st.lex == Seq
    ensures var r := Exec(st.(accum := "", depth := st.depth + 1, isFirstNode := false), rest);
      Exec(st, ")(" + rest) == JsRun([BranchStart] + r.events, r.final, r.stopped)
  {
    assert ")(" + rest == [')'] + (['('] + rest);
    var s1 := st.(accum := st.accum + ")");
    var o1 := Step(st, ')');
    assert o1 == StepOut([], s1, false);
    var o2 := Step(s1, '(');
    var s2 := st.(accum := "", depth := st.depth + 1, isFirstNode := false);
    assert o2 == StepOut([BranchStart], s2, false);
    ExecCons(st, ')', ['('] + rest);
    ExecCons(s1, '(', rest);
  }

  lemma ExecCons(st: JsState, c: char, rest: string)
    ensures Exec(st, [c] + rest) ==
      var o := Step(st, c);
      if o.stop then JsRun(o.events, o.next, true)
      else var r := Exec(o.next, rest); JsRun(o.events + r.events, r.final, r.stopped)
  {
    assert ([c] + rest)[0] == c && ([c] + rest)[1..] == rest;
  }
}
