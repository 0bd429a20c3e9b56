/** The root node of `test_simple_branches` and `test_multi_branches` in
    honey/sgf.py, `{'SZ': '19', 'GM': '1', 'FF': '4'}`, and the text the
    writer makes of it: `sorted` puts the rendered properties in the order
    `FF`, `GM`, `SZ`. */
module HoneySgfTests {
  import opened SgfBase
  import opened HoneySerial

  /** The root of both games, `{'SZ': '19', 'GM': '1', 'FF': '4'}`. */
  predicate IsRoot(p: Props)
  {
    p.Keys == {"FF", "GM", "SZ"} && p["FF"] == "4" && p["GM"] == "1" && p["SZ"] == "19"
  }

  /** How `sorted` orders the root's rendered properties. */
  lemma RootOrder(p: Props)
    requires IsRoot(p)
    ensures ItemBefore(p, "FF", "GM") && ItemBefore(p, "GM", "SZ")
  {
    assert Render("FF", p["FF"]) == "FF[4]";
    assert Render("GM", p["GM"]) == "GM[1]";
    assert Render("SZ", p["SZ"]) == "SZ[19]";
    assert Less("FF[4]", "GM[1]") by {
      assert "FF[4]"[0] == 'F' && "GM[1]"[0] == 'G';
    }
    assert Less("GM[1]", "SZ[19]") by {
      assert "GM[1]"[0] == 'G' && "SZ[19]"[0] == 'S';
    }
  }

  /** The three properties rendered in that order. */
  lemma RootProps(p: Props)
    requires IsRoot(p)
    ensures PropsText(p, ["FF", "GM", "SZ"]) == "FF[4]GM[1]SZ[19]"
  {
    assert Render("SZ", p["SZ"]) == "SZ[19]";
    assert ["SZ"][1..] == [];
    assert PropsText(p, ["SZ"]) == "SZ[19]";
    assert ["GM", "SZ"][1..] == ["SZ"];
    assert Render("GM", p["GM"]) == "GM[1]";
    assert PropsText(p, ["GM", "SZ"]) == "GM[1]" + "SZ[19]";
    assert ["FF", "GM", "SZ"][1..] == ["GM", "SZ"];
    assert Render("FF", p["FF"]) == "FF[4]";
    assert PropsText(p, ["FF", "GM", "SZ"]) == "FF[4]" + "GM[1]SZ[19]";
  }

  /** The root is written `;FF[4]GM[1]SZ[19]`. */
  lemma RootText(p: Props)
    requires IsRoot(p)
    ensures NodeToSgf(p) == ";FF[4]GM[1]SZ[19]"
  {
    RootOrder(p);
    ThreeKeys(p, "FF", "GM", "SZ");
    RootProps(p);
  }
}
