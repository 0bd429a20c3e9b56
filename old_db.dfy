/** `create_game` of db.py: an uploaded sgf is parsed with sgf.py, its first
    game kept and the Little Golem result fixed in its root. */
module OldDb {
  import opened SgfBase
  import opened OldTree
  import OldParse
  import opened GameRoot

  /** `create_game(user_id, sgf_str)`: the game stored, `None` where the
      source returns False on a parse error, or the exception that escapes
      (a game without nodes has no `nodes[0]`). */
  function CreateGame(sgf: string): (r: Result<Option<OLine>>)
    ensures OldParse.ParseSpec(sgf).Err? && OldParse.ParseSpec(sgf).error.SgfParseError? <==> r == Ok(None)
    ensures r.Err? <==>
      (OldParse.ParseSpec(sgf).Err? && !OldParse.ParseSpec(sgf).error.SgfParseError?) ||
      (OldParse.ParseSpec(sgf).Ok? && OldParse.ParseSpec(sgf).value[0] == [])
    ensures r.Ok? && r.value.Some? ==>
      OldParse.ParseSpec(sgf).Ok? &&
      var game := OldParse.ParseSpec(sgf).value[0];
      var n := r.value.value;
      |game| > 0 && |n| == |game| && n[1..] == game[1..] &&
      n[0] == game[0].(props := FixResult(game[0].props))
  {
    match OldParse.ParseSpec(sgf)
    case Err(SgfParseError(_)) => Ok(None)
    case Err(e) => Err(e)
    case Ok(games) =>
      var game := games[0];
      if game == [] then Err(Crash("IndexError"))
      else Ok(Some(game[0 := game[0].(props := FixResult(game[0].props))]))
  }

  /** The stored game has the shape and size of the parsed one, keeps no bare
      `B` or `W` result, and can be walked by a cursor exactly when the parsed
      one could. */
  lemma StoredGame(sgf: string)
    requires CreateGame(sgf).Ok? && CreateGame(sgf).value.Some?
    ensures var game := OldParse.ParseSpec(sgf).value[0];
      var n := CreateGame(sgf).value.value;
      Count(n) == Count(game) && (Plain(n) <==> Plain(game)) &&
      ("RE" in n[0].props ==> n[0].props["RE"] != "B" && n[0].props["RE"] != "W")
  {
    var game := OldParse.ParseSpec(sgf).value[0];
    var n := CreateGame(sgf).value.value;
    var root := game[0].props;
    assert n == [n[0]] + game[1..];
    assert game == [game[0]] + game[1..];
    assert Count(n) == Count(game) by {
      assert NodeCount(n[0]) == NodeCount(game[0]);
      assert n[1..] == game[1..];
    }
    assert Plain(n) <==> Plain(game) by {
      assert "variants" in FixResult(root) <==> "variants" in root;
      assert NodePlain(n[0]) <==> NodePlain(game[0]);
      assert forall i :: 1 <= i < |n| ==> n[i] == game[i];
    }
    if "RE" in root && (root["RE"] == "B" || root["RE"] == "W") {
      assert |n[0].props["RE"]| == 2;
    }
  }
}
