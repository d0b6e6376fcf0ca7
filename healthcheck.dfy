/**
  The parser's own health checks, on the lines they parse: a definition with
  an alias (Test 1), then an elaboration with an alias (Test 2) or without one
  (Test 6) under the node it defines.
 */
module HealthCheck {
  import opened Wrappers
  import opened PyText
  import opened PyDict
  import opened Syntax
  import opened GraphModel

  const Name := "protestant reformation"
  const Alias := "protref"
  const Content := "some event in Europe"
  const Kid := "prots"
  const KidContent := "there were protestants involved in this"

  /** `protestant reformation (protref) : some event in Europe` */
  const Definition1: string := Name + " (" + Alias + ") : " + Content
  /** `protref < (prots) there were protestants involved in this` */
  const Elaboration2: string := Alias + " < (" + Kid + ") " + KidContent
  /** `protref < there were protestants involved in this` */
  const Elaboration6: string := Alias + " < " + KidContent

  /** The registry after Test 1's line: one node, no children, no connections. */
  function AfterTest1(): Store
  {
    Empty<Entry>().Put(Alias, Entry(Alias, Name, Content, Empty(), Empty()))
  }

  /** A space on either side of a text with no space at its ends is stripped off. */
  lemma StripSpace(s: string)
    requires s != [] && s[0] != ' ' && s[|s| - 1] != ' '
    ensures Strip(s, Spaces) == s
    ensures Strip(" " + s, Spaces) == s
    ensures Strip(s + " ", Spaces) == s
  {
    assert (" " + s)[1..] == s;
    assert StripStart(" " + s, Spaces) == StripStart(s, Spaces);
    assert StripStart(s + " ", Spaces) == s + " ";
    assert (s + " ")[..|s|] == s;
    assert StripEnd(s + " ", Spaces) == StripEnd(s, Spaces);
    StripNoop(s, Spaces);
  }

  /** A text with no line break and no whitespace at its ends: a line as the test texts write it. */
  predicate Bare(line: string)
  {
    line != [] && '\n' !in line && line[0] !in Whitespace && line[|line| - 1] !in Whitespace
  }

  /** A bare line is one line, itself. */
  lemma OneLine(line: string)
    requires Bare(line)
    ensures Lines(line) == [line]
  {
    StripNoop(line, Whitespace);
    SingleLine(line);
  }

  /** A bare line indented by four spaces is still that one line. */
  lemma Indented(line: string)
    requires Bare(line)
    ensures Lines("    " + line) == [line]
  {
    var t, t1, t2, t3 := "    " + line, "   " + line, "  " + line, " " + line;
    assert t[1..] == t1 && t1[1..] == t2 && t2[1..] == t3 && t3[1..] == line;
    assert t[0] == t1[0] == t2[0] == t3[0] == ' ' && ' ' in Whitespace;
    assert StripStart(line, Whitespace) == line;
    assert StripStart(t3, Whitespace) == line;
    assert StripStart(t2, Whitespace) == line;
    assert StripStart(t1, Whitespace) == line;
    assert StripStart(t, Whitespace) == line;
    StripNoop(line, Whitespace);
    SingleLine(t);
  }

  /** The last indented line of a test's text, then the four closing spaces. */
  lemma IndentedLast(b: string)
    requires Bare(b)
    ensures Lines(("    " + b) + "\n" + "    ") == [b]
  {
    LinesConcat("    " + b, "    ");
    StripEmpty("    ", Whitespace);
    BlankLine("    ");
    Indented(b);
  }

  lemma IndentedBody(a: string, b: string)
    requires Bare(a) && Bare(b)
    ensures Lines(("    " + a) + "\n" + (("    " + b) + "\n" + "    ")) == [a, b]
  {
    LinesConcat("    " + a, ("    " + b) + "\n" + "    ");
    Indented(a);
    IndentedLast(b);
  }

  /**
    The program writes a test's two lines in a triple-quoted string: a line
    break, then each line indented by four spaces and followed by a line break,
    then four spaces. That text has exactly the two lines.
   */
  lemma IndentedText(a: string, b: string)
    requires Bare(a) && Bare(b)
    ensures Lines("\n    " + a + "\n    " + b + "\n    ") == [a, b]
  {
    var body := ("    " + a) + "\n" + (("    " + b) + "\n" + "    ");
    assert "\n    " + a + "\n    " + b + "\n    " == "" + "\n" + body;
    LinesConcat("", body);
    StripEmpty("", Whitespace);
    BlankLine("");
    IndentedBody(a, b);
  }

  /** Parsing depends on a text only through its lines. */
  lemma SameLines(g: Store, c: string, d: string)
    requires Lines(c) == Lines(d)
    ensures Parse(g, c) == Parse(g, d)
  {
  }

  // ---------------------------------------------------------------- Test 1

  lemma Test1Form()
    ensures Classify(Definition1) == Definition(33)
  {
    var line := Definition1;
    assert line[..33] == Name + " (" + Alias + ") ";
    assert line[33] == ':';
    assert ':' !in line[..33];
    FindUnique(line, ':', 33);
    assert line[0] != '#' && ':' in line;
    ClassifySpec(line);
  }

  lemma Test1Sides()
    ensures Strip(Definition1[..33], Spaces) == Name + " (" + Alias + ")"
    ensures Strip(Definition1[34..], Spaces) == Content
  {
    var line := Definition1;
    var left := Name + " (" + Alias + ")";
    assert line[..33] == left + " ";
    StripSpace(left);
    assert line[34..] == " " + Content;
    StripSpace(Content);
  }

  lemma Test1Fields()
    ensures DefinitionFields(Definition1, 33) == Success(Fields(Alias, Name, Content))
  {
    var line := Definition1;
    var left := Name + " (" + Alias + ")";
    Test1Sides();
    assert left[23] == '(' && left[24..] == Alias + ")";
    assert '(' !in left[24..];
    DefinitionAliased(line, 33, 23);
    assert left[..23] == Name + " ";
    StripSpace(Name);
    assert left[24..|left| - 1] == Alias;
    DefinitionContent(line, 33);
  }

  lemma Test1Bare()
    ensures Bare(Definition1) && Lines(Definition1) == [Definition1]
  {
    var line := Definition1;
    assert line == Name + " (" + Alias + ") : " + Content;
    assert '\n' !in line;
    assert line[0] == 'p' && line[|line| - 1] == 'e';
    OneLine(line);
  }

  lemma Test1Apply(ctx: seq<ContextLine>)
    ensures ApplyLine(Empty(), Definition1, ctx) == Success(AfterTest1())
  {
    Test1Form();
    Test1Fields();
    ApplyDefinition(Empty(), Definition1, ctx, 33);
  }

  /** A text that is one line parses as that line's handler says. */
  lemma ParseOne(g: Store, code: string, h: Store)
    requires Lines(code) == [code]
    requires ApplyLine(g, code, Context([code], 0)) == Success(h)
    ensures Parse(g, code) == Run(h, Pass)
  {
    var lines := [code];
    assert RunLines(g, lines, 0) == Run(g, Pass);
    RunPass(g, lines, 0, g, h);
  }

  /** Test 1: `get("protref")` has the name `protestant reformation` and the content `some event in Europe`. */
  lemma Test1()
    ensures Parse(Empty(), Definition1) == Run(AfterTest1(), Pass)
    ensures AfterTest1().Lookup(Alias) == Some(Entry(Alias, Name, Content, Empty(), Empty()))
  {
    Test1Bare();
    Test1Apply(Context([Definition1], 0));
    ParseOne(Empty(), Definition1, AfterTest1());
  }

  // ---------------------------------------------------------------- Tests 2 and 6

  /** An elaboration under `protref`: its `<` is at 8, and nothing before it is a `#`, a `:` or a `>`. */
  lemma ElaborationForm(line: string, rest: string)
    requires line == Alias + " <" + rest && ':' !in rest && '>' !in rest
    ensures Classify(line) == Elaboration(8)
  {
    assert line[..8] == Alias + " ";
    assert line[8] == '<';
    assert '<' !in line[..8];
    FindUnique(line, '<', 8);
    assert line[0] != '#';
    assert ':' !in line && '>' !in line;
    ClassifySpec(line);
    assert Find(line, '>') == -1;
  }

  lemma Test2Sides()
    ensures Strip(Elaboration2[..8], Spaces) == Alias
    ensures Strip(Elaboration2[9..], Spaces) == "(" + Kid + ") " + KidContent
  {
    var line := Elaboration2;
    var right := "(" + Kid + ") " + KidContent;
    assert line[..8] == Alias + " ";
    assert line[9..] == " " + right;
    StripSpace(Alias);
    StripSpace(right);
  }

  lemma Test2Fields()
    ensures ElaborationFields(Elaboration2, 8) == Success(Elab(Alias, Fields(Kid, Kid, KidContent)))
  {
    var line := Elaboration2;
    var right := "(" + Kid + ") " + KidContent;
    Test2Sides();
    assert right[6] == ')' && right[..6] == "(" + Kid;
    assert ')' !in right[..6];
    assert right[7..] == " " + KidContent;
    StripSpace(KidContent);
    assert right[1..6] == Kid;
    ElaborationAliased(line, 8, 6);
  }

  lemma Test6Fields()
    ensures ElaborationFields(Elaboration6, 8) == Success(Elab(Alias, Fields(KidContent, KidContent, KidContent)))
  {
    var line := Elaboration6;
    assert line[..8] == Alias + " ";
    assert line[9..] == " " + KidContent;
    StripSpace(Alias);
    StripSpace(KidContent);
    assert ')' !in KidContent;
    ElaborationUnaliased(line, 8);
  }

  lemma Test2Form()
    ensures Classify(Elaboration2) == Elaboration(8)
  {
    var rest := " (" + Kid + ") " + KidContent;
    assert ':' !in Kid && '>' !in Kid;
    assert ':' !in KidContent && '>' !in KidContent;
    assert ':' !in rest && '>' !in rest;
    ElaborationForm(Elaboration2, rest);
  }

  lemma Test2Bare()
    ensures Bare(Elaboration2) && Lines(Elaboration2) == [Elaboration2]
  {
    var line := Elaboration2;
    assert line == Alias + " < (" + Kid + ") " + KidContent;
    assert '\n' !in line;
    assert line[0] == 'p' && line[|line| - 1] == 's';
    OneLine(line);
  }

  lemma Test6Form()
    ensures Classify(Elaboration6) == Elaboration(8)
  {
    var rest := " " + KidContent;
    assert ':' !in KidContent && '>' !in KidContent;
    assert ':' !in rest && '>' !in rest;
    ElaborationForm(Elaboration6, rest);
  }

  lemma Test6Bare()
    ensures Bare(Elaboration6) && Lines(Elaboration6) == [Elaboration6]
  {
    var line := Elaboration6;
    assert line == Alias + " < " + KidContent;
    assert '\n' !in line;
    assert line[0] == 'p' && line[|line| - 1] == 's';
    OneLine(line);
  }

  /** The registry once a child with id `id` is under `protref`. */
  function WithChild(id: string, content: string): Store
  {
    var p := Entry(Alias, Name, Content, Empty(), Empty());
    AfterTest1().Put(Alias, p.(children := Empty<Leaf>().Put(id, Leaf(id, id, content))))
  }

  /** Parsing Test 1's line and then an elaboration line whose fields put the child `id` under `protref`. */
  lemma ThenElaborate(line: string, id: string, content: string)
    requires Classify(line) == Elaboration(8)
    requires ElaborationFields(line, 8) == Success(Elab(Alias, Fields(id, id, content)))
    requires Lines(line) == [line]
    ensures Parse(Empty(), Definition1 + "\n" + line) == Run(WithChild(id, content), Pass)
  {
    Test1();
    ParseConcat(Empty(), Definition1, line);
    ThenChild(line, id, content);
    ParseOne(AfterTest1(), line, WithChild(id, content));
  }

  lemma ThenChild(line: string, id: string, content: string)
    requires Classify(line) == Elaboration(8)
    requires ElaborationFields(line, 8) == Success(Elab(Alias, Fields(id, id, content)))
    ensures ApplyLine(AfterTest1(), line, Context([line], 0)) == Success(WithChild(id, content))
  {
    ApplyElaboration(AfterTest1(), line, Context([line], 0), 8);
    assert AfterTest1().items[Alias] == Entry(Alias, Name, Content, Empty(), Empty());
  }

  /** Test 2's text: the definition, then `protref < (prots) there were protestants involved in this`, indented in a triple-quoted string. */
  const Code2: string := "\n    " + Definition1 + "\n    " + Elaboration2 + "\n    "
  /** Test 6's text: the definition, then `protref < there were protestants involved in this`, indented likewise. */
  const Code6: string := "\n    " + Definition1 + "\n    " + Elaboration6 + "\n    "

  /** The indented text of a test has the lines of its two lines joined by a line break. */
  lemma Code2Lines()
    ensures Lines(Code2) == Lines(Definition1 + "\n" + Elaboration2)
  {
    Test1Bare();
    Test2Bare();
    IndentedText(Definition1, Elaboration2);
    LinesConcat(Definition1, Elaboration2);
  }

  lemma Code6Lines()
    ensures Lines(Code6) == Lines(Definition1 + "\n" + Elaboration6)
  {
    Test1Bare();
    Test6Bare();
    IndentedText(Definition1, Elaboration6);
    LinesConcat(Definition1, Elaboration6);
  }

  /** Test 2: after Test 2's text, `get("protref").children.get("prots")` has the content `there were protestants involved in this`. */
  lemma Test2()
    ensures Parse(Empty(), Code2) == Run(WithChild(Kid, KidContent), Pass)
    ensures WithChild(Kid, KidContent).items[Alias].children.Lookup(Kid) == Some(Leaf(Kid, Kid, KidContent))
  {
    Test2Form();
    Test2Fields();
    Test2Bare();
    ThenElaborate(Elaboration2, Kid, KidContent);
    Code2Lines();
    SameLines(Empty(), Code2, Definition1 + "\n" + Elaboration2);
  }

  /** Test 6: after Test 6's text, `protref` has a child registered under its content, since it has no alias. */
  lemma Test6()
    ensures Parse(Empty(), Code6) == Run(WithChild(KidContent, KidContent), Pass)
    ensures WithChild(KidContent, KidContent).items[Alias].children.Lookup(KidContent) == Some(Leaf(KidContent, KidContent, KidContent))
  {
    Test6Form();
    Test6Fields();
    Test6Bare();
    ThenElaborate(Elaboration6, KidContent, KidContent);
    Code6Lines();
    SameLines(Empty(), Code6, Definition1 + "\n" + Elaboration6);
  }
}
