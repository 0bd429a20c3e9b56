/** Decisions both generations of the database layer take on a game's root
    node: the result fix for Little Golem records (`create_game` in db.py and
    in honey/db.py) and the guess of the game type (`Game.resolve_type` in
    honey/db.py). */
module GameRoot {
  import opened SgfBase

  /** Little Golem writes the result `RE` as a bare winner, `B` or `W`; the
      fix appends `+`. Any other value, and a root without `RE`, stay as
      they are. */
  function FixResult(root: Props): (r: Props)
    ensures r.Keys == root.Keys
    ensures forall k :: k in root && k != "RE" ==> r[k] == root[k]
    ensures "RE" in root ==>
      r["RE"] == (if root["RE"] == "B" then "B+" else if root["RE"] == "W" then "W+" else root["RE"])
  {
    if "RE" in root && (root["RE"] == "B" || root["RE"] == "W") then root["RE" := root["RE"] + "+"]
    else root
  }

  /** A fixed result is left alone by a second fix. */
  lemma FixResultIdempotent(root: Props)
    ensures FixResult(FixResult(root)) == FixResult(root)
  {
    var r := FixResult(root);
    if "RE" in root && (root["RE"] == "B" || root["RE"] == "W") {
      assert r["RE"] != "B" && r["RE"] != "W" by {
        assert |r["RE"]| == 2;
      }
    }
  }

  /** The characters Python 2's `int()` strips around a number. */
  predicate IsSpace(c: char)
  {
    c == ' ' || c == '\t' || c == '\n' || c == '\r' || c == '\U{b}' || c == '\U{c}'
  }

  predicate IsDigit(c: char)
  {
    '0' <= c <= '9'
  }

  function DropSpaces(s: string): (t: string)
    ensures |t| <= |s| && (t != [] ==> !IsSpace(t[0]))
  {
    if s != [] && IsSpace(s[0]) then DropSpaces(s[1..]) else s
  }

  function DropTrailingSpaces(s: string): (t: string)
    ensures |t| <= |s| && (t != [] ==> !IsSpace(t[|t| - 1]))
  {
    if s != [] && IsSpace(s[|s| - 1]) then DropTrailingSpaces(s[..|s| - 1]) else s
  }

  /** The value of a string of decimal digits, most significant first. */
  function DigitsValue(s: string): nat
    requires forall i :: 0 <= i < |s| ==> IsDigit(s[i])
  {
    if s == [] then 0
    else
      assert forall i :: 0 <= i < |s| - 1 ==> s[..|s| - 1][i] == s[i];
      assert IsDigit(s[|s| - 1]);
      10 * DigitsValue(s[..|s| - 1]) + (s[|s| - 1] as int - '0' as int)
  }

  /** Python 2's `int(s)` on a str: surrounding white space, an optional
      sign, more white space (the digit reader skips it again after the
      sign), and at least one decimal digit; anything else is a ValueError. */
  function PyInt(s: string): (r: Option<int>)
    ensures r.Some? ==> exists c :: c in s && IsDigit(c)
    ensures r.Some? && r.value < 0 ==> '-' in s
  {
    var t := DropTrailingSpaces(DropSpaces(s));
    var neg := t != [] && t[0] == '-';
    var body := DropSpaces(if t != [] && (t[0] == '-' || t[0] == '+') then t[1..] else t);
    if body != [] && forall i :: 0 <= i < |body| ==> IsDigit(body[i]) then
      var v: int := DigitsValue(body);
      assert IsDigit(body[0]) && body[0] in s && (neg ==> t[0] in s) by {
        StrippedWithin(s);
        if t != [] {
          assert t[0] in t;
          assert forall c :: c in t[1..] ==> c in t;
        }
        DropSpacesWithin(if t != [] && (t[0] == '-' || t[0] == '+') then t[1..] else t);
      }
      Some(if neg then -v else v)
    else None
  }

  /** Stripping keeps only characters of the string stripped. */
  lemma {:induction false} DropSpacesWithin(s: string)
    ensures forall c :: c in DropSpaces(s) ==> c in s
  {
    if s != [] && IsSpace(s[0]) {
      DropSpacesWithin(s[1..]);
    }
  }

  lemma {:induction false} DropTrailingWithin(s: string)
    ensures forall c :: c in DropTrailingSpaces(s) ==> c in s
  {
    if s != [] && IsSpace(s[|s| - 1]) {
      DropTrailingWithin(s[..|s| - 1]);
    }
  }

  lemma StrippedWithin(s: string)
    ensures forall c :: c in DropTrailingSpaces(DropSpaces(s)) ==> c in s
  {
    DropSpacesWithin(s);
    DropTrailingWithin(DropSpaces(s));
  }

  /** The decimal numeral of `n`, as `str(n)` writes it. */
  function Numeral(n: nat): (s: string)
    ensures |s| > 0 && forall i :: 0 <= i < |s| ==> IsDigit(s[i])
  {
    var d := [('0' as int + n % 10) as char];
    if n < 10 then d else Numeral(n / 10) + d
  }

  lemma {:induction false} NumeralValue(n: nat)
    ensures DigitsValue(Numeral(n)) == n
  {
    var s := Numeral(n);
    var d := [('0' as int + n % 10) as char];
    if n >= 10 {
      assert s[..|s| - 1] == Numeral(n / 10);
      NumeralValue(n / 10);
    }
  }

  /** `int()` reads a plain string of digits as its decimal value. */
  lemma {:induction false} PyIntReadsDigits(s: string)
    requires s != [] && forall i :: 0 <= i < |s| ==> IsDigit(s[i])
    ensures PyInt(s) == Some(DigitsValue(s))
  {
    DigitsUnstripped(s);
    var t := DropTrailingSpaces(DropSpaces(s));
    assert t == s;
    assert t[0] != '-' && t[0] != '+' && !IsSpace(t[0]) by {
      assert IsDigit(s[0]);
    }
    NoLeadingSpace(t);
  }

  /** White space between the sign and the digits is skipped: `int("- 1")`
      is -1 and `int("+ 1")` is 1. */
  lemma PyIntSpaceAfterSign(w: string, d: string)
    requires forall i :: 0 <= i < |w| ==> IsSpace(w[i])
    requires d != [] && forall i :: 0 <= i < |d| ==> IsDigit(d[i])
    ensures PyInt("-" + (w + d)) == Some(-(DigitsValue(d) as int))
    ensures PyInt("+" + (w + d)) == Some(DigitsValue(d))
  {
    PyIntSigned('-', w, d);
    PyIntSigned('+', w, d);
  }

  lemma PyIntSigned(sign: char, w: string, d: string)
    requires sign == '-' || sign == '+'
    requires forall i :: 0 <= i < |w| ==> IsSpace(w[i])
    requires d != [] && forall i :: 0 <= i < |d| ==> IsDigit(d[i])
    ensures PyInt([sign] + (w + d)) == Some(if sign == '-' then -(DigitsValue(d) as int) else DigitsValue(d))
  {
    var s := [sign] + (w + d);
    SignedStripped(sign, w, d);
    SignedBody(sign, w, d);
    PyIntByParts(s, d);
  }

  /** A sign followed by white space and digits has nothing to strip around it. */
  lemma SignedStripped(sign: char, w: string, d: string)
    requires sign == '-' || sign == '+'
    requires d != [] && forall i :: 0 <= i < |d| ==> IsDigit(d[i])
    ensures DropTrailingSpaces(DropSpaces([sign] + (w + d))) == [sign] + (w + d)
  {
    var s := [sign] + (w + d);
    assert IsDigit(d[|d| - 1]);
    assert s[|s| - 1] == d[|d| - 1];
    NoLeadingSpace(s);
    NoTrailingSpace(s);
  }

  /** After the sign, the white space is dropped and the digits are left. */
  lemma SignedBody(sign: char, w: string, d: string)
    requires forall i :: 0 <= i < |w| ==> IsSpace(w[i])
    requires d != [] && forall i :: 0 <= i < |d| ==> IsDigit(d[i])
    ensures DropSpaces(([sign] + (w + d))[1..]) == d
  {
    assert ([sign] + (w + d))[1..] == w + d;
    assert IsDigit(d[0]);
    SpacesDropped(w, d);
  }

  /** `int()` of a signed string with nothing to strip around it. */
  lemma PyIntByParts(s: string, d: string)
    requires s != [] && (s[0] == '-' || s[0] == '+')
    requires DropTrailingSpaces(DropSpaces(s)) == s && DropSpaces(s[1..]) == d
    requires d != [] && forall i :: 0 <= i < |d| ==> IsDigit(d[i])
    ensures PyInt(s) == Some(if s[0] == '-' then -(DigitsValue(d) as int) else DigitsValue(d))
  {
  }

  /** Leading white space before a string that does not start with it is
      dropped, and nothing more. */
  lemma {:induction false} SpacesDropped(w: string, d: string)
    requires forall i :: 0 <= i < |w| ==> IsSpace(w[i])
    requires d != [] && !IsSpace(d[0])
    ensures DropSpaces(w + d) == d
    decreases |w|
  {
    if w == [] {
      assert w + d == d;
      NoLeadingSpace(d);
    } else {
      assert (w + d)[0] == w[0] && (w + d)[1..] == w[1..] + d;
      SpacesDropped(w[1..], d);
    }
  }

  /** `int()` refuses an empty or all-blank string. */
  lemma {:induction false} PyIntRefusesBlank(s: string)
    requires forall i :: 0 <= i < |s| ==> IsSpace(s[i])
    ensures PyInt(s).None?
  {
    BlankStripped(s);
  }

  /** A string of white space strips to nothing. */
  lemma {:induction false} BlankStripped(s: string)
    requires forall i :: 0 <= i < |s| ==> IsSpace(s[i])
    ensures DropSpaces(s) == []
    decreases |s|
  {
    if s != [] {
      BlankStripped(s[1..]);
    }
  }

  /** A string of digits has no white space to strip. */
  lemma DigitsUnstripped(s: string)
    requires s != [] && forall i :: 0 <= i < |s| ==> IsDigit(s[i])
    ensures DropTrailingSpaces(DropSpaces(s)) == s
  {
    assert IsDigit(s[0]) && IsDigit(s[|s| - 1]);
    NoLeadingSpace(s);
    NoTrailingSpace(s);
  }

  lemma NoLeadingSpace(s: string)
    requires s != [] && !IsSpace(s[0])
    ensures DropSpaces(s) == s
  {
  }

  lemma NoTrailingSpace(s: string)
    requires s != [] && !IsSpace(s[|s| - 1])
    ensures DropTrailingSpaces(s) == s
  {
  }

  /** `int()` reads back every numeral. */
  lemma PyIntReadsNumerals(n: nat)
    ensures PyInt(Numeral(n)) == Some(n)
  {
    PyIntReadsDigits(Numeral(n));
    NumeralValue(n);
  }

  /** `re.match(r"^%s[0-9\.]" % t, event)`: the event starts with `t` and a
      digit or a dot. */
  predicate TypePrefix(t: string, event: string)
    ensures TypePrefix(t, event) <==>
      exists d :: (IsDigit(d) || d == '.') && |event| > |t| && event[..|t| + 1] == t + [d]
  {
    assert |event| > |t| ==> event[..|t| + 1] == event[..|t|] + [event[|t|]];
    assert forall d :: |event| > |t| && event[..|t| + 1] == t + [d] ==> event[..|t|] == t && event[|t|] == d by {
      forall d | |event| > |t| && event[..|t| + 1] == t + [d]
        ensures event[..|t|] == t && event[|t|] == d
      {
        assert event[..|t|] == event[..|t| + 1][..|t|];
        assert event[|t|] == event[..|t| + 1][|t|];
      }
    }
    |event| > |t| && event[..|t|] == t && (IsDigit(event[|t|]) || event[|t|] == '.')
  }

  /** The two patterns never both match, so the order in which the game types
      are tried does not matter. */
  lemma TypePrefixesExclusive(event: string)
    ensures !(TypePrefix("go", event) && TypePrefix("hex", event))
  {
    if TypePrefix("go", event) {
      assert event[0] == event[..2][0] == 'g';
      if |event| > 3 {
        assert event[..3][0] == event[0];
      }
    }
  }

  /** `Game.source == "http://www.littlegolem.com"`. */
  predicate FromLittleGolem(root: Props)
    ensures FromLittleGolem(root) <==> "SO" in root && root["SO"] == "http://www.littlegolem.com"
  {
    Get(root, "SO") == Some("http://www.littlegolem.com")
  }

  /** `Game.event`: `EV`, or `"?"`. */
  function Event(root: Props): (e: string)
    ensures "EV" in root ==> e == root["EV"]
    ensures "EV" !in root ==> e == "?"
  {
    if "EV" in root then root["EV"] else "?"
  }

  /** The type `GM` names, with `GAME_TYPES = {1: "go", 11: "hex"}`; a `GM`
      that `int()` refuses raises, since only KeyError is caught. */
  function TypeFromGM(root: Props): (r: Result<Option<string>>)
    ensures "GM" !in root ==> r == Ok(None)
    ensures "GM" in root ==>
      (r.Err? <==> PyInt(root["GM"]).None?) &&
      (r == Ok(Some("go")) <==> PyInt(root["GM"]) == Some(1)) &&
      (r == Ok(Some("hex")) <==> PyInt(root["GM"]) == Some(11))
    ensures r.Ok? && r.value.Some? ==> r.value.value in {"go", "hex"}
  {
    if "GM" !in root then Ok(None)
    else
      match PyInt(root["GM"])
      case None => Err(Crash("ValueError"))
      case Some(k) => if k == 1 then Ok(Some("go")) else if k == 11 then Ok(Some("hex")) else Ok(None)
  }

  /** `resolve_type`: the game type, `None` where the source returns False,
      or the exception. */
  function ResolveType(root: Props): (r: Result<Option<string>>)
    ensures TypeFromGM(root).Err? ==> r == TypeFromGM(root)
    ensures TypeFromGM(root).Ok? && TypeFromGM(root).value.Some? ==> r == TypeFromGM(root)
    ensures TypeFromGM(root) == Ok(None) ==>
      (r == Ok(Some("go")) <==> FromLittleGolem(root) && TypePrefix("go", Event(root))) &&
      (r == Ok(Some("hex")) <==> FromLittleGolem(root) && TypePrefix("hex", Event(root))) &&
      (r == Ok(None) <==> !(FromLittleGolem(root) && (TypePrefix("go", Event(root)) || TypePrefix("hex", Event(root)))))
  {
    match TypeFromGM(root)
    case Err(e) => Err(e)
    case Ok(Some(t)) => Ok(Some(t))
    case Ok(None) =>
      if FromLittleGolem(root) && TypePrefix("go", Event(root)) then Ok(Some("go"))
      else if FromLittleGolem(root) && TypePrefix("hex", Event(root)) then Ok(Some("hex"))
      else Ok(None)
  }

  lemma PyIntOne()
    ensures PyInt("1") == Some(1)
  {
    assert Numeral(1) == "1";
    PyIntReadsNumerals(1);
  }

  lemma PyIntEleven()
    ensures PyInt("11") == Some(11)
  {
    assert Numeral(1) == "1";
    assert 11 / 10 == 1 && 11 % 10 == 1;
    assert Numeral(11) == "11";
    PyIntReadsNumerals(11);
  }

  /** `GM[+ 1]` is go: `int()` skips the white space after the sign. */
  lemma SpacedSignIsGo(root: Props)
    requires "GM" in root && root["GM"] == "+ 1"
    ensures ResolveType(root) == Ok(Some("go"))
  {
    PlusSpaceOne();
    assert TypeFromGM(root) == Ok(Some("go"));
  }

  lemma PlusSpaceOne()
    ensures PyInt("+ 1") == Some(1)
  {
    assert Numeral(1) == "1";
    NumeralValue(1);
    PyIntSigned('+', " ", "1");
    assert "+ 1" == ['+'] + (" " + "1");
  }

  /** `GM[1]` is go and `GM[11]` is hex, whatever else the root holds. */
  lemma GMNumbers(root: Props)
    ensures "GM" in root && root["GM"] == "1" ==> ResolveType(root) == Ok(Some("go"))
    ensures "GM" in root && root["GM"] == "11" ==> ResolveType(root) == Ok(Some("hex"))
  {
    if "GM" in root && root["GM"] == "1" {
      PyIntOne();
      assert TypeFromGM(root) == Ok(Some("go"));
    }
    if "GM" in root && root["GM"] == "11" {
      PyIntEleven();
      assert TypeFromGM(root) == Ok(Some("hex"));
    }
  }

  /** The result fix does not change the type guessed. */
  lemma FixKeepsType(root: Props)
    ensures ResolveType(FixResult(root)) == ResolveType(root)
  {
    var r := FixResult(root);
    assert ("GM" in r <==> "GM" in root) && ("GM" in root ==> r["GM"] == root["GM"]);
    assert Get(r, "SO") == Get(root, "SO") && Event(r) == Event(root);
  }
}
