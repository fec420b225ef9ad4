/**
 * The layout description used as an example in the layout parser's own unit
 * test, written out once as a descriptor and once as the layout the parser
 * is expected to produce for it.
 */
module TmuxLayoutSample {
  import opened Wrappers
  import opened Text
  import opened TmuxLayout

  function G(w: nat, h: nat, x: nat, y: nat): PaneGeom
  {
    PaneGeom(Size(w, h), x, y)
  }

  /**
   * The description from the test; it is the checksum, a comma and the five
   * node texts below, written as the concatenation of the node texts so that
   * each piece can be matched against its node.
   */
  const Sample: string := "4264" + "," + TextTop

  const TextL1 := "200x56,0,0,546"
  const TextL2 := "200x55,0,57,798"
  const TextL3 := "200x56,201,0,795"
  const TextL4 := "100x55,201,57,796"
  const TextL5 := "99x27,302,57,797"
  const TextL6 := "99x27,302,85,799"
  const TextA := "200x112,0,0" + "[" + (TextL1 + "," + TextL2) + "]"
  const TextC := "99x55,302,57" + "[" + (TextL5 + "," + TextL6) + "]"
  const TextB := "200x55,201,57" + "{" + (TextL4 + "," + TextC) + "}"
  const TextD := "200x112,201,0" + "[" + (TextL3 + "," + TextB) + "]"
  const TextTop := "401x112,0,0" + "{" + (TextA + "," + TextD) + "}"

  const Expected: Layout :=
    H(G(401, 112, 0, 0), [
      V(G(200, 112, 0, 0), [Pane(G(200, 56, 0, 0)), Pane(G(200, 55, 0, 57))]),
      V(G(200, 112, 201, 0), [
        Pane(G(200, 56, 201, 0)),
        H(G(200, 55, 201, 57), [
          Pane(G(100, 55, 201, 57)),
          V(G(99, 55, 302, 57), [Pane(G(99, 27, 302, 57)), Pane(G(99, 27, 302, 85))])])])])

  // The same tree with the pane ids the description carries.
  const L1 := DPane(G(200, 56, 0, 0), 546)
  const L2 := DPane(G(200, 55, 0, 57), 798)
  const L3 := DPane(G(200, 56, 201, 0), 795)
  const L4 := DPane(G(100, 55, 201, 57), 796)
  const L5 := DPane(G(99, 27, 302, 57), 797)
  const L6 := DPane(G(99, 27, 302, 85), 799)
  const NodeA := DV(G(200, 112, 0, 0), [L1, L2])
  const NodeC := DV(G(99, 55, 302, 57), [L5, L6])
  const NodeB := DH(G(200, 55, 201, 57), [L4, NodeC])
  const NodeD := DV(G(200, 112, 201, 0), [L3, NodeB])
  const SampleDescriptor := DH(G(401, 112, 0, 0), [NodeA, NodeD])

  /** Decimal texts of the numbers below 100 in the sample. */
  lemma SmallNumbers()
    ensures NatToString(0) == "0" && NatToString(27) == "27" && NatToString(55) == "55"
    ensures NatToString(56) == "56" && NatToString(57) == "57" && NatToString(85) == "85"
    ensures NatToString(99) == "99"
  {
    assert NatToString(2) == "2" && NatToString(5) == "5" && NatToString(7) == "7" && NatToString(8) == "8";
    assert NatToString(9) == "9" && NatToString(6) == "6";
  }

  lemma Hundreds()
    ensures NatToString(100) == "100" && NatToString(112) == "112"
  {
    assert NatToString(0) == "0" && NatToString(1) == "1" && NatToString(2) == "2" && NatToString(10) == "10" && NatToString(11) == "11";
  }

  lemma TwoHundreds()
    ensures NatToString(200) == "200" && NatToString(201) == "201"
  {
    assert NatToString(0) == "0" && NatToString(1) == "1" && NatToString(2) == "2" && NatToString(20) == "20";
  }

  lemma ThreeFourHundreds()
    ensures NatToString(302) == "302" && NatToString(401) == "401"
  {
    assert NatToString(1) == "1" && NatToString(2) == "2" && NatToString(3) == "3" && NatToString(4) == "4" && NatToString(30) == "30" && NatToString(40) == "40";
  }

  lemma FiveSevenHundreds()
    ensures NatToString(546) == "546" && NatToString(795) == "795"
  {
    assert NatToString(4) == "4" && NatToString(5) == "5" && NatToString(6) == "6" && NatToString(7) == "7" && NatToString(9) == "9" && NatToString(54) == "54" && NatToString(79) == "79";
  }

  lemma SevenNineties()
    ensures NatToString(796) == "796" && NatToString(797) == "797" && NatToString(798) == "798" && NatToString(799) == "799"
  {
    assert NatToString(6) == "6" && NatToString(7) == "7" && NatToString(8) == "8" && NatToString(9) == "9" && NatToString(79) == "79";
  }

  /** Decimal texts of the numbers of three digits in the sample. */
  lemma LargeNumbers()
    ensures NatToString(100) == "100" && NatToString(112) == "112" && NatToString(200) == "200"
    ensures NatToString(201) == "201" && NatToString(302) == "302" && NatToString(401) == "401"
    ensures NatToString(546) == "546" && NatToString(795) == "795" && NatToString(796) == "796"
    ensures NatToString(797) == "797" && NatToString(798) == "798" && NatToString(799) == "799"
  {
    Hundreds();
    TwoHundreds();
    ThreeFourHundreds();
    FiveSevenHundreds();
    SevenNineties();
  }

  function GeomLit(sw: string, sh: string, sx: string, sy: string): string
  {
    sw + "x" + sh + "," + sx + "," + sy
  }

  lemma GeomText(g: PaneGeom, sw: string, sh: string, sx: string, sy: string)
    requires NatToString(g.size.width) == sw && NatToString(g.size.height) == sh
    requires NatToString(g.xOffset) == sx && NatToString(g.yOffset) == sy
    ensures RenderGeom(g) == GeomLit(sw, sh, sx, sy)
  {
  }

  lemma PaneText(d: Descriptor, sw: string, sh: string, sx: string, sy: string, sid: string)
    requires d.DPane?
    requires NatToString(d.geom.size.width) == sw && NatToString(d.geom.size.height) == sh
    requires NatToString(d.geom.xOffset) == sx && NatToString(d.geom.yOffset) == sy
    requires NatToString(d.id) == sid
    ensures Render(d) == GeomLit(sw, sh, sx, sy) + "," + sid
  {
  }

  lemma PairText(a: Descriptor, b: Descriptor)
    ensures RenderList([a, b]) == Render(a) + "," + Render(b)
  {
    assert [a, b][1..] == [b];
  }

  lemma L1Text()
    ensures Render(L1) == TextL1
  {
    SmallNumbers();
    LargeNumbers();
    PaneText(L1, "200", "56", "0", "0", "546");
    L1Literal();
  }

  lemma L1Literal()
    ensures GeomLit("200", "56", "0", "0") + "," + "546" == "200x56,0,0,546"
  {
  }

  lemma L2Text()
    ensures Render(L2) == TextL2
  {
    SmallNumbers();
    LargeNumbers();
    PaneText(L2, "200", "55", "0", "57", "798");
    L2Literal();
  }

  lemma L2Literal()
    ensures GeomLit("200", "55", "0", "57") + "," + "798" == "200x55,0,57,798"
  {
  }

  lemma L3Text()
    ensures Render(L3) == TextL3
  {
    SmallNumbers();
    LargeNumbers();
    PaneText(L3, "200", "56", "201", "0", "795");
    L3Literal();
  }

  lemma L3Literal()
    ensures GeomLit("200", "56", "201", "0") + "," + "795" == "200x56,201,0,795"
  {
  }

  lemma L4Text()
    ensures Render(L4) == TextL4
  {
    SmallNumbers();
    LargeNumbers();
    PaneText(L4, "100", "55", "201", "57", "796");
    L4Literal();
  }

  lemma L4Literal()
    ensures GeomLit("100", "55", "201", "57") + "," + "796" == "100x55,201,57,796"
  {
  }

  lemma L5Text()
    ensures Render(L5) == TextL5
  {
    SmallNumbers();
    LargeNumbers();
    PaneText(L5, "99", "27", "302", "57", "797");
    L5Literal();
  }

  lemma L5Literal()
    ensures GeomLit("99", "27", "302", "57") + "," + "797" == "99x27,302,57,797"
  {
  }

  lemma L6Text()
    ensures Render(L6) == TextL6
  {
    SmallNumbers();
    LargeNumbers();
    PaneText(L6, "99", "27", "302", "85", "799");
    L6Literal();
  }

  lemma L6Literal()
    ensures GeomLit("99", "27", "302", "85") + "," + "799" == "99x27,302,85,799"
  {
  }

  lemma NodeAGeomText()
    ensures RenderGeom(NodeA.geom) == "200x112,0,0"
  {
    SmallNumbers();
    LargeNumbers();
    GeomText(NodeA.geom, "200", "112", "0", "0");
    NodeAGeomLiteral();
  }

  lemma NodeAGeomLiteral()
    ensures GeomLit("200", "112", "0", "0") == "200x112,0,0"
  {
  }

  lemma NodeBGeomText()
    ensures RenderGeom(NodeB.geom) == "200x55,201,57"
  {
    SmallNumbers();
    LargeNumbers();
    GeomText(NodeB.geom, "200", "55", "201", "57");
    NodeBGeomLiteral();
  }

  lemma NodeBGeomLiteral()
    ensures GeomLit("200", "55", "201", "57") == "200x55,201,57"
  {
  }

  lemma NodeCGeomText()
    ensures RenderGeom(NodeC.geom) == "99x55,302,57"
  {
    SmallNumbers();
    LargeNumbers();
    GeomText(NodeC.geom, "99", "55", "302", "57");
    NodeCGeomLiteral();
  }

  lemma NodeCGeomLiteral()
    ensures GeomLit("99", "55", "302", "57") == "99x55,302,57"
  {
  }

  lemma NodeDGeomText()
    ensures RenderGeom(NodeD.geom) == "200x112,201,0"
  {
    SmallNumbers();
    LargeNumbers();
    GeomText(NodeD.geom, "200", "112", "201", "0");
    NodeDGeomLiteral();
  }

  lemma NodeDGeomLiteral()
    ensures GeomLit("200", "112", "201", "0") == "200x112,201,0"
  {
  }

  lemma SampleDescriptorGeomText()
    ensures RenderGeom(SampleDescriptor.geom) == "401x112,0,0"
  {
    SmallNumbers();
    LargeNumbers();
    GeomText(SampleDescriptor.geom, "401", "112", "0", "0");
    SampleDescriptorGeomLiteral();
  }

  lemma SampleDescriptorGeomLiteral()
    ensures GeomLit("401", "112", "0", "0") == "401x112,0,0"
  {
  }

  lemma NodeAText()
    ensures Render(NodeA) == TextA
  {
    NodeAGeomText();
    L1Text();
    L2Text();
    PairText(L1, L2);
  }

  lemma NodeCText()
    ensures Render(NodeC) == TextC
  {
    NodeCGeomText();
    L5Text();
    L6Text();
    PairText(L5, L6);
  }

  lemma NodeBText()
    ensures Render(NodeB) == TextB
  {
    NodeBGeomText();
    L4Text();
    NodeCText();
    PairText(L4, NodeC);
  }

  lemma NodeDText()
    ensures Render(NodeD) == TextD
  {
    NodeDGeomText();
    L3Text();
    NodeBText();
    PairText(L3, NodeB);
  }

  lemma SampleDescriptorText()
    ensures Render(SampleDescriptor) == TextTop
  {
    SampleDescriptorGeomText();
    NodeAText();
    NodeDText();
    PairText(NodeA, NodeD);
  }

  lemma PairWellFormed(d: Descriptor)
    requires !d.DPane? && GeomInRange(d.geom) && |d.children| == 2
    requires WellFormed(d.children[0]) && WellFormed(d.children[1])
    ensures WellFormed(d)
  {
    assert forall i :: 0 <= i < |d.children| ==> WellFormed(d.children[i]) by {
      forall i | 0 <= i < |d.children| ensures WellFormed(d.children[i]) {
        assert i == 0 || i == 1;
      }
    }
  }

  lemma PairErases(a: Descriptor, b: Descriptor)
    ensures EraseAll([a, b]) == [Erase(a), Erase(b)]
  {
    assert [a, b][1..] == [b];
    assert [b][1..] == [];
  }

  lemma SampleWellFormed()
    ensures WellFormed(SampleDescriptor)
  {
    PairWellFormed(NodeA);
    PairWellFormed(NodeC);
    PairWellFormed(NodeB);
    PairWellFormed(NodeD);
    PairWellFormed(SampleDescriptor);
  }

  lemma SampleErases()
    ensures Erase(SampleDescriptor) == Expected
  {
    PairErases(L1, L2);
    PairErases(L5, L6);
    PairErases(L4, NodeC);
    PairErases(L3, NodeB);
    PairErases(NodeA, NodeD);
  }

  /** The parser's unit test: the sample description parses to the expected tree. */
  lemma SampleParses()
    ensures Parse(Sample) == Some(Expected)
  {
    SampleDescriptorText();
    SampleWellFormed();
    ParseRendered("4264", SampleDescriptor);
    SampleErases();
  }
}
