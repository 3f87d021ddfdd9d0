/**
 * The scenario of generator.py's `__main__` block, replayed command by
 * command on the `Program` class: a switch with two cases and a default, then
 * a `for` holding an if / else if / else chain. The program text it must
 * produce is spelled out line by line below.
 */
module Demo {
  import opened Nodes
  import opened Builder
  import opened Generator

  const Switch1 := Block(Switch("x"), [
      Block(Case("1"), [Assign("y", "0")]),
      Block(Case("2"), [Assign("y", "100")]),
      Block(Default, [Assign("y", "10000")])])
  const For1 := Block(For("i", "0", "16"), [
      Block(If("y == 0"), [Printi("1000")]),
      Block(ElseIf("y == 1"), [Print("Fizz")]),
      Block(Else, [])])
  /** The tree the scenario folds into. */
  const Tree := Block(Main, [Switch1, For1])

  /** Indentation of four, eight and twelve spaces. */
  const I4 := "    "
  const I8 := "        "
  const I12 := "            "

  /**
   * The expected output: the `main` header, a blank line, then the body and
   * the footer, one string per line.
   */
  const Output := "int main() {\n\n" + Join((SwitchLines + ForLines) + [I4 + "return 0;", "}"])

  const Case1Lines := [I8 + "case 1:", I12 + "y = 0;", I12 + "break;"]
  const Case2Lines := [I8 + "case 2:", I12 + "y = 100;", I12 + "break;"]
  const DefaultLines := [I8 + "default:", I12 + "y = 10000;", I12 + "break;"]
  const SwitchLines := [I4 + "switch (x) {"] + (Case1Lines + Case2Lines + DefaultLines) + [I4 + "}"]
  const IfLines1 := [I8 + "if (y == 0) {", I12 + "printf(\"%d\\n\", 1000);", I8 + "}"]
  const ElseIfLines := [I8 + "else if (y == 1) {", I12 + "printf(\"%s\\n\", \"Fizz\");", I8 + "}"]
  const ElseLines := [I8 + "else {", I8 + "}"]
  const ForLines := [I4 + "for (int i = 0; i < 16; i++) {"] + (IfLines1 + ElseIfLines + ElseLines) + [I4 + "}"]

  lemma Each1(a: Node, i: nat)
    ensures LinesEach([a], i) == Lines(a, i)
  {
    assert [a][1..] == [];
  }

  lemma Each2(a: Node, b: Node, i: nat)
    ensures LinesEach([a, b], i) == Lines(a, i) + Lines(b, i)
  {
    assert [a, b][1..] == [b];
    Each1(b, i);
  }

  lemma Each3(a: Node, b: Node, c: Node, i: nat)
    ensures LinesEach([a, b, c], i) == Lines(a, i) + Lines(b, i) + Lines(c, i)
  {
    assert [a, b, c][1..] == [b, c];
    Each2(b, c, i);
  }

  lemma Spaces4()
    ensures Spaces(4) == "    "
  {
  }

  lemma Spaces8()
    ensures Spaces(8) == "        "
  {
    Spaces4();
    SpacesAdd(4, 4);
  }

  lemma Spaces12()
    ensures Spaces(12) == "            "
  {
    Spaces4();
    Spaces8();
    SpacesAdd(8, 4);
  }

  lemma At4(s: string)
    ensures WithIndent(s, 4) == I4 + s
  {
    Spaces4();
  }

  lemma At8(s: string)
    ensures WithIndent(s, 8) == I8 + s
  {
    Spaces8();
  }

  lemma At12(s: string)
    ensures WithIndent(s, 12) == I12 + s
  {
    Spaces12();
  }

  /** A container holding one leaf statement, line by line. */
  lemma OneLeaf(k: Kind, x: Node, i: nat)
    requires !x.Block?
    ensures Lines(Block(k, [x]), i) == [WithIndent(Header(k), i), WithIndent(LeafText(x), i + 4)] + Footer(k, i)
  {
    Each1(x, i + 4);
  }

  lemma Case1Text()
    ensures WithIndent(Header(Case("1")), 8) == I8 + "case 1:"
    ensures WithIndent(LeafText(Assign("y", "0")), 12) == I12 + "y = 0;"
  {
    assert Header(Case("1")) == "case 1:";
    At8("case 1:");
    assert LeafText(Assign("y", "0")) == "y = 0;";
    At12("y = 0;");
  }

  lemma Case2Text()
    ensures WithIndent(Header(Case("2")), 8) == I8 + "case 2:"
    ensures WithIndent(LeafText(Assign("y", "100")), 12) == I12 + "y = 100;"
  {
    assert Header(Case("2")) == "case 2:";
    At8("case 2:");
    assert LeafText(Assign("y", "100")) == "y = 100;";
    At12("y = 100;");
  }

  lemma DefaultText()
    ensures WithIndent(Header(Default), 8) == I8 + "default:"
    ensures WithIndent(LeafText(Assign("y", "10000")), 12) == I12 + "y = 10000;"
  {
    At8("default:");
    assert LeafText(Assign("y", "10000")) == "y = 10000;";
    At12("y = 10000;");
  }

  lemma SwitchText()
    ensures WithIndent(Header(Switch("x")), 4) == I4 + "switch (x) {"
    ensures Footer(Switch("x"), 4) == [I4 + "}"]
  {
    assert Header(Switch("x")) == "switch (x) {";
    At4("switch (x) {");
    At4("}");
  }

  lemma SwitchRendering()
    ensures Lines(Switch1, 4) == SwitchLines
  {
    var c1, c2, d := Block(Case("1"), [Assign("y", "0")]), Block(Case("2"), [Assign("y", "100")]),
      Block(Default, [Assign("y", "10000")]);
    assert Lines(c1, 8) == Case1Lines by {
      OneLeaf(Case("1"), Assign("y", "0"), 8);
      Case1Text();
      At12("break;");
    }
    assert Lines(c2, 8) == Case2Lines by {
      OneLeaf(Case("2"), Assign("y", "100"), 8);
      Case2Text();
      At12("break;");
    }
    assert Lines(d, 8) == DefaultLines by {
      OneLeaf(Default, Assign("y", "10000"), 8);
      DefaultText();
      At12("break;");
    }
    Each3(c1, c2, d, 8);
    SwitchText();
  }

  lemma ForPrefix()
    ensures "for (int " + "i" + " = " + "0" + "; " == "for (int i = 0; "
  {
    assert "for (int " + "i" == "for (int i";
    assert "for (int i" + " = " == "for (int i = ";
    assert "for (int i = " + "0" == "for (int i = 0";
    assert "for (int i = 0" + "; " == "for (int i = 0; ";
  }

  lemma ForSuffix()
    ensures "for (int i = 0; " + "i" + " < " + "16" + "; " + "i" + "++) {" == "for (int i = 0; i < 16; i++) {"
  {
    assert "for (int i = 0; " + "i" == "for (int i = 0; i";
    assert "for (int i = 0; i" + " < " == "for (int i = 0; i < ";
    assert "for (int i = 0; i < " + "16" == "for (int i = 0; i < 16";
    assert "for (int i = 0; i < 16" + "; " == "for (int i = 0; i < 16; ";
    assert "for (int i = 0; i < 16; " + "i" == "for (int i = 0; i < 16; i";
    assert "for (int i = 0; i < 16; i" + "++) {" == "for (int i = 0; i < 16; i++) {";
  }

  lemma ForHeaderText()
    ensures Header(For("i", "0", "16")) == "for (int i = 0; i < 16; i++) {"
  {
    ForPrefix();
    ForSuffix();
  }

  lemma ForText()
    ensures WithIndent(Header(For("i", "0", "16")), 4) == I4 + "for (int i = 0; i < 16; i++) {"
    ensures Footer(For("i", "0", "16"), 4) == [I4 + "}"]
  {
    ForHeaderText();
    At4("for (int i = 0; i < 16; i++) {");
    At4("}");
  }

  lemma IfHeaderText()
    ensures WithIndent(Header(If("y == 0")), 8) == I8 + "if (y == 0) {"
  {
    assert "if (" + "y == 0" == "if (y == 0";
    assert "if (y == 0" + ") {" == "if (y == 0) {";
    At8("if (y == 0) {");
  }

  lemma PrintiText()
    ensures WithIndent(LeafText(Printi("1000")), 12) == I12 + "printf(\"%d\\n\", 1000);"
  {
    assert "printf(\"%d\\n\", " + "1000" == "printf(\"%d\\n\", 1000";
    assert "printf(\"%d\\n\", 1000" + ");" == "printf(\"%d\\n\", 1000);";
    At12("printf(\"%d\\n\", 1000);");
  }

  lemma ElseIfHeaderText()
    ensures WithIndent(Header(ElseIf("y == 1")), 8) == I8 + "else if (y == 1) {"
  {
    assert "else if (" + "y == 1" == "else if (y == 1";
    assert "else if (y == 1" + ") {" == "else if (y == 1) {";
    At8("else if (y == 1) {");
  }

  lemma PrintText()
    ensures WithIndent(LeafText(Print("Fizz")), 12) == I12 + "printf(\"%s\\n\", \"Fizz\");"
  {
    assert "printf(\"%s\\n\", \"" + "Fizz" == "printf(\"%s\\n\", \"Fizz";
    assert "printf(\"%s\\n\", \"Fizz" + "\");" == "printf(\"%s\\n\", \"Fizz\");";
    At12("printf(\"%s\\n\", \"Fizz\");");
  }

  lemma CloseText()
    ensures WithIndent("}", 8) == I8 + "}"
    ensures Lines(Block(Else, []), 8) == ElseLines
  {
    At8("}");
    At8("else {");
  }

  lemma ForRendering()
    ensures Lines(For1, 4) == ForLines
  {
    var a, b, c := Block(If("y == 0"), [Printi("1000")]), Block(ElseIf("y == 1"), [Print("Fizz")]),
      Block(Else, []);
    assert Lines(a, 8) == IfLines1 by {
      OneLeaf(If("y == 0"), Printi("1000"), 8);
      IfHeaderText();
      PrintiText();
      CloseText();
    }
    assert Lines(b, 8) == ElseIfLines by {
      OneLeaf(ElseIf("y == 1"), Print("Fizz"), 8);
      ElseIfHeaderText();
      PrintText();
      CloseText();
    }
    assert Lines(c, 8) == ElseLines by { CloseText(); }
    Each3(a, b, c, 8);
    ForText();
  }

  lemma MainText()
    ensures Spaces(0) + "int main() {\n\n" == "int main() {\n\n"
    ensures Footer(Main, 0) == [I4 + "return 0;", "}"]
  {
    At4("return 0;");
    assert "" + "}" == "}";
    assert "" + "int main() {\n\n" == "int main() {\n\n";
  }

  /** The body of `main` and its footer, line by line. */
  lemma BodyRendering()
    ensures LinesEach([Switch1, For1], 4) + Footer(Main, 0)
         == (SwitchLines + ForLines) + [I4 + "return 0;", "}"]
  {
    SwitchRendering();
    ForRendering();
    Each2(Switch1, For1, 4);
    MainText();
  }

  /** `main` at indent 0, given the lines of its body and footer. */
  lemma MainRendering(body: seq<Node>, ls: seq<string>)
    requires LinesEach(body, 4) + Footer(Main, 0) == ls
    ensures Emit(Block(Main, body), 0) == "int main() {\n\n" + Join(ls)
  {
    MainBlankLine(body, 0);
    MainText();
  }

  /** The scenario's tree renders to exactly the expected text. */
  lemma TreeRendering()
    ensures Emit(Tree, 0) == Output
  {
    BodyRendering();
    MainRendering([Switch1, For1], (SwitchLines + ForLines) + [I4 + "return 0;", "}"]);
  }

  // The states the scenario passes through.
  const M0 := Block(Main, [])
  const Sw0 := Block(Switch("x"), [])
  const C1 := Block(Case("1"), [Assign("y", "0")])
  const C2 := Block(Case("2"), [Assign("y", "100")])
  const D := Block(Default, [Assign("y", "10000")])
  const MS := Block(Main, [Switch1])
  const F0 := Block(For("i", "0", "16"), [])
  const If1 := Block(If("y == 0"), [Printi("1000")])
  const Elif1 := Block(ElseIf("y == 1"), [Print("Fizz")])
  const Else0 := Block(Else, [])

  /** A statement added to an empty scope becomes its only child. */
  lemma FirstChild(k: Kind, c: Node)
    ensures Statement(Block(k, []), c) == Block(k, [c])
  {
    assert [] + [c] == [c];
  }

  lemma SecondChild(k: Kind, a: Node, c: Node)
    ensures Statement(Block(k, [a]), c) == Block(k, [a, c])
  {
    assert [a] + [c] == [a, c];
  }

  lemma ThirdChild(k: Kind, a: Node, b: Node, c: Node)
    ensures Statement(Block(k, [a, b]), c) == Block(k, [a, b, c])
  {
    assert [a, b] + [c] == [a, b, c];
  }

  /** The second `case` folds the first one into the switch. */
  lemma SecondCase()
    ensures CaseSpec([M0, Sw0, C1]) == Some([M0, Block(Switch("x"), [C1])])
  {
    var s := [M0, Sw0, C1];
    var t := [M0, Block(Switch("x"), [C1])];
    CloseCase(s);
    FirstChild(Switch("x"), C1);
    assert Attach(s) == t by { assert [M0] + [Block(Switch("x"), [C1])] == t; }
    assert FoldToSwitch(s) == Some(t);
  }

  lemma DefaultCase()
    ensures CaseSpec([M0, Block(Switch("x"), [C1]), C2]) == Some([M0, Block(Switch("x"), [C1, C2])])
  {
    var s := [M0, Block(Switch("x"), [C1]), C2];
    var t := [M0, Block(Switch("x"), [C1, C2])];
    CloseCase(s);
    SecondChild(Switch("x"), C1, C2);
    assert Attach(s) == t by { assert [M0] + [Block(Switch("x"), [C1, C2])] == t; }
    assert FoldToSwitch(s) == Some(t);
  }

  /** `doclose` on an open default closes the default and the switch. */
  lemma CloseSwitch()
    ensures DoCloseSpec([M0, Block(Switch("x"), [C1, C2]), D]) == Some([MS])
  {
    var s := [M0, Block(Switch("x"), [C1, C2]), D];
    var t := [M0, Switch1];
    CloseCase(s);
    ThirdChild(Switch("x"), C1, C2, D);
    assert Attach(s) == t by { assert [M0] + [Switch1] == t; }
    FirstChild(Main, Switch1);
    assert Attach(t) == [MS] by { assert [] + [MS] == [MS]; }
  }

  lemma ElseIfAfterIf()
    ensures FoldToIf([MS, F0, If1]) == Some([MS, Block(For("i", "0", "16"), [If1])])
  {
    var s := [MS, F0, If1];
    var t := [MS, Block(For("i", "0", "16"), [If1])];
    CloseClosable(s);
    FirstChild(For("i", "0", "16"), If1);
    assert Attach(s) == t by { assert [MS] + [Block(For("i", "0", "16"), [If1])] == t; }
  }

  lemma ElseAfterElseIf()
    ensures FoldToIf([MS, Block(For("i", "0", "16"), [If1]), Elif1])
         == Some([MS, Block(For("i", "0", "16"), [If1, Elif1])])
  {
    var s := [MS, Block(For("i", "0", "16"), [If1]), Elif1];
    var t := [MS, Block(For("i", "0", "16"), [If1, Elif1])];
    CloseClosable(s);
    SecondChild(For("i", "0", "16"), If1, Elif1);
    assert Attach(s) == t by { assert [MS] + [Block(For("i", "0", "16"), [If1, Elif1])] == t; }
  }

  /** Emitting folds the open `else`, the `for` and the switch into `main`. */
  lemma FinalFold()
    ensures FoldAll([MS, Block(For("i", "0", "16"), [If1, Elif1]), Else0]) == Some(Tree)
  {
    var s := [MS, Block(For("i", "0", "16"), [If1, Elif1]), Else0];
    var t := [MS, For1];
    CloseClosable(s);
    ThirdChild(For("i", "0", "16"), If1, Elif1, Else0);
    assert Attach(s) == t by { assert [MS] + [For1] == t; }
    assert FoldAll(s) == FoldAll(t);
    CloseClosable(t);
    SecondChild(Main, Switch1, For1);
    assert Attach(t) == [Tree] by { assert [] + [Tree] == [Tree]; }
    assert FoldAll(t) == FoldAll([Tree]);
    CloseClosable([Tree]);
  }

  /** The first half of the scenario: a switch with two cases and a default. */
  method BuildSwitch(p: Program) returns (ok: bool)
    requires p.stack == [] && p.cur == M0
    modifies p
    ensures ok && p.stack == [] && p.cur == MS
  {
    p.OpenSwitch("x");
    assert p.Ext() == [M0, Sw0];
    var ok1 := p.OpenCase("1");
    assert p.stack == [M0, Sw0] && p.cur == Block(Case("1"), []);
    p.Statement(Assign("y", "0"));
    FirstChild(Case("1"), Assign("y", "0"));
    assert p.Ext() == [M0, Sw0, C1];
    SecondCase();
    var ok2 := p.OpenCase("2");
    assert p.stack == [M0, Block(Switch("x"), [C1])] && p.cur == Block(Case("2"), []);
    p.Statement(Assign("y", "100"));
    FirstChild(Case("2"), Assign("y", "100"));
    assert p.Ext() == [M0, Block(Switch("x"), [C1]), C2];
    DefaultCase();
    var ok3 := p.OpenDefault();
    assert p.stack == [M0, Block(Switch("x"), [C1, C2])] && p.cur == Block(Default, []);
    p.Statement(Assign("y", "10000"));
    FirstChild(Default, Assign("y", "10000"));
    assert p.Ext() == [M0, Block(Switch("x"), [C1, C2]), D];
    CloseSwitch();
    var ok4 := p.DoClose();
    assert p.stack + [p.cur] == [MS];
    ok := ok1 && ok2 && ok3 && ok4;
    assert |p.stack| == 0 && (p.stack + [p.cur])[0] == p.cur;
  }

  /** The second half: a `for` holding an if / else if / else chain, left open. */
  method BuildFor(p: Program) returns (ok: bool)
    requires p.stack == [] && p.cur == MS
    modifies p
    ensures ok && p.Valid() && p.stack + [p.cur] == [MS, Block(For("i", "0", "16"), [If1, Elif1]), Else0]
  {
    p.OpenFor("i", "0", "16");
    p.OpenIf("y == 0");
    p.Statement(Printi("1000"));
    FirstChild(If("y == 0"), Printi("1000"));
    assert p.Ext() == [MS, F0, If1];
    ElseIfAfterIf();
    var ok1 := p.OpenElseIf("y == 1");
    assert p.stack == [MS, Block(For("i", "0", "16"), [If1])] && p.cur == Block(ElseIf("y == 1"), []);
    p.Statement(Print("Fizz"));
    FirstChild(ElseIf("y == 1"), Print("Fizz"));
    assert p.Ext() == [MS, Block(For("i", "0", "16"), [If1]), Elif1];
    ElseAfterElseIf();
    var ok2 := p.OpenElse();
    ok := ok1 && ok2;
  }

  /**
   * The `__main__` scenario: every command succeeds, and `emit(program)`
   * yields exactly the expected program text.
   */
  method Scenario() returns (ok: bool, text: Option<string>)
    ensures ok && text == Some(Output)
  {
    var p := new Program();
    var ok1 := BuildSwitch(p);
    var ok2 := BuildFor(p);
    ok := ok1 && ok2;
    FinalFold();
    TreeRendering();
    text := EmitProgram(p);
  }
}
