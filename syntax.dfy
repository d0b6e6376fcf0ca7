/**
  The line-level part of the causality notation: how `Graph.parse` cuts its
  input into lines and the diagnostic window around each, how `parse_line`
  decides what kind of line it has, and what it slices out of each kind
  before touching any registry.
 */
module Syntax {
  import opened Wrappers
  import opened PyText

  /** One line of the diagnostic window: its index among the kept lines, its text, and whether it is the line being parsed. */
  datatype ContextLine = ContextLine(index: nat, text: string, current: bool)

  /** The ways a line can fail, one per exception the handlers raise. */
  datatype ErrorKind =
    | Redefinition                               // `add` of an id already in the registry (SyntaxWarning)
    | Nonexistent                                // `get` of an id not in the registry (SyntaxError)
    | NotFound                                   // the search in `find_node` ran out of nodes (RuntimeError)
    | IndexOutOfRange                            // `left[-1]` or `right[0]` on an empty string (IndexError)
    | InvalidSyntax(context: seq<ContextLine>)   // a line of no known form; its message shows the window

  /** What `parse_line` sees in a line, with the positions it found. */
  datatype Form =
    | Comment
    | Definition(colon: nat)
    | Elaboration(lt: nat)
    | Connection(open: int, close: nat)   // `open` (of `<`) is -1 when the line has a `>` but no `<`
    | Malformed

  /** The three strings a definition or an elaboration gives to the new node. */
  datatype Fields = Fields(id: string, name: string, content: string)

  /** An elaboration: the id of the parent and the child to add under it. */
  datatype Elab = Elab(parent: string, child: Fields)

  /** A connection: the origin's id, the relation label and the raw destination tokens. */
  datatype Link = Link(origin: string, relation: string, targets: seq<string>)

  // ---------------------------------------------------------------- lines

  /** `[line.strip() for line in code.split("\n") if line.strip() != ""]` */
  function Lines(code: string): seq<string>
  {
    NonBlank(Split(code, '\n'))
  }

  function NonBlank(pieces: seq<string>): seq<string>
  {
    if pieces == [] then []
    else
      var t := Strip(pieces[0], Whitespace);
      (if t == [] then [] else [t]) + NonBlank(pieces[1..])
  }

  /** A piece of text with no line break and nothing but whitespace in it gives no line. */
  lemma BlankLine(code: string)
    requires '\n' !in code && Strip(code, Whitespace) == []
    ensures Lines(code) == []
  {
    assert Split(code, '\n') == [code];
    assert [code][1..] == [];
    assert NonBlank([code]) == [] + NonBlank([]);
  }

  /** Every kept line is non-empty and has no whitespace at either end. */
  lemma {:induction false} NonBlankShape(pieces: seq<string>)
    ensures |NonBlank(pieces)| <= |pieces|
    ensures forall l :: l in NonBlank(pieces) ==> l != [] && l[0] !in Whitespace && l[|l| - 1] !in Whitespace
  {
    if pieces != [] {
      StripShape(pieces[0], Whitespace);
      NonBlankShape(pieces[1..]);
    }
  }

  lemma {:induction false} NonBlankAppend(a: seq<string>, b: seq<string>)
    ensures NonBlank(a + b) == NonBlank(a) + NonBlank(b)
  {
    if a == [] {
      assert a + b == b;
    } else {
      assert (a + b)[0] == a[0];
      assert (a + b)[1..] == a[1..] + b;
      NonBlankAppend(a[1..], b);
    }
  }

  lemma {:induction false} SplitAppend(a: string, b: string, c: char)
    requires c !in a
    ensures Split(a + [c] + b, c) == [a] + Split(b, c)
  {
    var s := a + [c] + b;
    assert s[|a|] == c;
    assert s[..|a|] == a;
    assert s[|a| + 1..] == b;
  }

  lemma {:induction false} SplitConcat(a: string, b: string, c: char)
    ensures Split(a + [c] + b, c) == Split(a, c) + Split(b, c)
    decreases |a|
  {
    var k := Find(a, c);
    if k == -1 {
      SplitAppend(a, b, c);
    } else {
      var rest := a[k + 1..];
      var s := a + [c] + b;
      assert Split(s, c) == [a[..k]] + Split(rest + [c] + b, c) by {
        assert s[..k] == a[..k];
        assert s[k + 1..] == rest + [c] + b;
        SplitAt(s, c, k);
      }
      assert Split(a, c) == [a[..k]] + Split(rest, c) by {
        SplitAt(a, c, k);
      }
      SplitConcat(rest, b, c);
      Regroup(Split(s, c), Split(a, c), [a[..k]], Split(rest, c), Split(b, c));
    }
  }

  lemma Regroup<T>(whole: seq<T>, front: seq<T>, x: seq<T>, y: seq<T>, z: seq<T>)
    requires whole == x + (y + z) && front == x + y
    ensures whole == front + z
  {
  }

  /** The kept lines of two pieces of text joined by a line break are the kept lines of each, in order. */
  lemma LinesConcat(a: string, b: string)
    ensures Lines(a + "\n" + b) == Lines(a) + Lines(b)
  {
    SplitConcat(a, b, '\n');
    NonBlankAppend(Split(a, '\n'), Split(b, '\n'));
  }

  /** A piece of text with no line break and something other than whitespace in it is one line: itself, stripped. */
  lemma SingleLine(code: string)
    requires '\n' !in code && Strip(code, Whitespace) != []
    ensures Lines(code) == [Strip(code, Whitespace)]
  {
    assert Split(code, '\n') == [code];
    assert [code][1..] == [];
    assert NonBlank([code]) == [Strip(code, Whitespace)] + NonBlank([]);
  }

  // ---------------------------------------------------------------- context

  /** The diagnostic window of `parse` for line `idx`: lines `j` for `j` in `range(idx - 3, idx + 4)` that exist. */
  function Context(lines: seq<string>, idx: nat): seq<ContextLine>
  {
    WindowFrom(lines, idx, idx - 3)
  }

  function WindowFrom(lines: seq<string>, idx: nat, j: int): seq<ContextLine>
    decreases idx + 4 - j
  {
    if j > idx + 3 then []
    else (if 0 <= j < |lines| then [ContextLine(j as nat, lines[j], j == idx)] else []) + WindowFrom(lines, idx, j + 1)
  }

  lemma {:induction false} WindowFromSpec(lines: seq<string>, idx: nat, j: int)
    requires idx - 3 <= j <= idx + 4
    ensures var lo := if j < 0 then 0 else j;
            var hi := if idx + 4 > |lines| then |lines| else idx + 4;
            var w := WindowFrom(lines, idx, j);
            && |w| == (if hi < lo then 0 else hi - lo)
            && forall k :: 0 <= k < |w| ==> w[k] == ContextLine(lo + k, lines[lo + k], lo + k == idx)
    decreases idx + 4 - j
  {
    if j <= idx + 3 {
      WindowFromSpec(lines, idx, j + 1);
    }
  }

  /**
    The window for line `idx` lists, in increasing order, exactly the lines whose
    index `j` satisfies `idx - 3 <= j <= idx + 3` and `0 <= j < |lines|`; each
    entry carries that line's text, and only the entry for `idx` is marked.
   */
  lemma ContextSpec(lines: seq<string>, idx: nat)
    requires idx < |lines|
    ensures var w := Context(lines, idx);
            && (forall k :: 0 <= k < |w| ==>
                  w[k].index < |lines| && w[k].text == lines[w[k].index] && (w[k].current <==> w[k].index == idx))
            && (forall k, m :: 0 <= k < m < |w| ==> w[k].index < w[m].index)
            && (forall j :: 0 <= j < |lines| ==> (Shows(w, j) <==> idx - 3 <= j <= idx + 3))
  {
    var w := Context(lines, idx);
    var lo := if idx < 3 then 0 else idx - 3;
    WindowFromSpec(lines, idx, idx - 3);
    forall j | 0 <= j < |lines| && idx - 3 <= j <= idx + 3
      ensures Shows(w, j)
    {
      assert w[j - lo].index == j;
    }
  }

  /** Line `j` appears in the window `w`. */
  ghost predicate Shows(w: seq<ContextLine>, j: int)
  {
    exists k :: 0 <= k < |w| && w[k].index == j
  }

  // ---------------------------------------------------------------- classification

  /** Some `a` in `s` comes before every `b` in `s` (there may be no `b`). */
  ghost predicate Precedes(s: string, a: char, b: char)
  {
    exists i :: 0 <= i < |s| && s[i] == a && b !in s[..i]
  }

  /** The decision chain of `parse_line`, stopping at the first form that matches. */
  function Classify(line: string): (f: Form)
    ensures f.Definition? ==> f.colon < |line|
    ensures f.Elaboration? ==> f.lt < |line|
    ensures f.Connection? ==> -1 <= f.open < f.close < |line|
  {
    if Slice(line, 0, 1) == "#" then Comment
    else
      var idx := Find(line, ':');
      if idx != -1 then Definition(idx)
      else
        var idx0, idx1 := Find(line, '<'), Find(line, '>');
        if (idx0 != -1 && idx1 == -1) || idx1 < idx0 then Elaboration(idx0)
        else if idx0 < idx1 then Connection(idx0, idx1)
        else Malformed
  }

  lemma PrecedesFind(s: string, a: char, b: char)
    requires a != b
    ensures Precedes(s, a, b) <==> a in s && (b !in s || Find(s, a) < Find(s, b))
  {
    if a in s && (b !in s || Find(s, a) < Find(s, b)) {
      var i := Find(s, a);
      if b in s {
        assert s[..i] == s[..Find(s, b)][..i];
      }
    }
    if Precedes(s, a, b) {
      var i :| 0 <= i < |s| && s[i] == a && b !in s[..i];
      assert Find(s, a) <= i;
      if b in s {
        forall t | 0 <= t < i ensures s[t] != b { assert s[t] == s[..i][t]; }
      }
    }
  }

  /**
    The precedence of line forms: a leading `#` makes a comment; otherwise any `:`
    makes a definition (at the first `:`); otherwise a `<` with no `>`, or a `>`
    before the first `<`, makes an elaboration; otherwise a `>` makes a
    connection — also with no `<` at all; anything else is malformed.
   */
  lemma ClassifySpec(line: string)
    ensures Classify(line).Comment? <==> |line| > 0 && line[0] == '#'
    ensures Classify(line).Definition? <==> !(|line| > 0 && line[0] == '#') && ':' in line
    ensures Classify(line).Definition? ==> line[Classify(line).colon] == ':' && ':' !in line[..Classify(line).colon]
    ensures Classify(line).Elaboration? <==>
              && !(|line| > 0 && line[0] == '#') && ':' !in line
              && '<' in line && ('>' !in line || Precedes(line, '>', '<'))
    ensures Classify(line).Elaboration? ==> line[Classify(line).lt] == '<' && '<' !in line[..Classify(line).lt]
    ensures Classify(line).Connection? <==>
              && !(|line| > 0 && line[0] == '#') && ':' !in line
              && '>' in line && ('<' !in line || Precedes(line, '<', '>'))
    ensures Classify(line).Connection? ==>
              && line[Classify(line).close] == '>' && '>' !in line[..Classify(line).close]
              && (Classify(line).open == -1 <==> '<' !in line)
              && ('<' in line ==> 0 <= Classify(line).open && line[Classify(line).open] == '<' && '<' !in line[..Classify(line).open])
    ensures Classify(line).Malformed? <==>
              !(|line| > 0 && line[0] == '#') && ':' !in line && '<' !in line && '>' !in line
  {
    assert |line| > 0 ==> Slice(line, 0, 1) == [line[0]];
    PrecedesFind(line, '>', '<');
    PrecedesFind(line, '<', '>');
  }

  // ---------------------------------------------------------------- definitions

  /** The definition handler up to the `add`: `left : right`, with an optional `(alias)` ending `left`. */
  function DefinitionFields(line: string, colon: nat): Result<Fields, ErrorKind>
    requires colon < |line|
  {
    var left := Strip(line[..colon], Spaces);
    var right := Strip(line[colon + 1..], Spaces);
    if left == [] then Failure(IndexOutOfRange)
    else
      var open := RFind(left, '(');
      // `alias.strip(" ")` discards its result, so the alias keeps its spaces
      var alias := if left[|left| - 1] == ')' then Slice(Slice(left, open, |left|), 1, -1) else "";
      var name := Strip(Slice(left, 0, open), Spaces);
      Success(Fields(if alias == [] then name else alias, name, Strip(right, Spaces)))
  }

  /** A definition fails, on `left[-1]`, exactly when nothing but spaces comes before the first `:`. */
  lemma DefinitionFails(line: string, colon: nat)
    requires colon < |line|
    ensures DefinitionFields(line, colon).Failure? <==> forall i :: 0 <= i < colon ==> line[i] == ' '
    ensures DefinitionFields(line, colon).Failure? ==> DefinitionFields(line, colon).error == IndexOutOfRange
  {
    var s := line[..colon];
    StripEmpty(s, Spaces);
    assert forall i :: 0 <= i < colon ==> s[i] == line[i];
  }

  /** Whatever `left` looks like, the content is the text after the `:`, stripped of spaces. */
  lemma DefinitionContent(line: string, colon: nat)
    requires colon < |line| && DefinitionFields(line, colon).Success?
    ensures DefinitionFields(line, colon).value.content == Strip(line[colon + 1..], Spaces)
  {
    StripIdempotent(line[colon + 1..], Spaces);
  }

  /**
    With `left` ending in `)` and `p` the position of its last `(`: a non-empty
    text between them is the id, verbatim; the name is the text before `p`,
    stripped of spaces; an empty text makes the id the name.
   */
  lemma DefinitionAliased(line: string, colon: nat, p: nat)
    requires colon < |line|
    requires var left := Strip(line[..colon], Spaces);
             && p < |left| && left[|left| - 1] == ')' && left[p] == '(' && '(' !in left[p + 1..]
    ensures var left := Strip(line[..colon], Spaces);
            var f := DefinitionFields(line, colon);
            && f.Success?
            && p < |left| - 1
            && f.value.name == Strip(left[..p], Spaces)
            && f.value.id == (if p + 1 == |left| - 1 then f.value.name else left[p + 1..|left| - 1])
  {
    var left := Strip(line[..colon], Spaces);
    RFindUnique(left, '(', p);
    assert Slice(left, p, |left|) == left[p..];
  }

  /**
    The known limitation: with no `(` in `left`, the handler takes everything but
    the last character of `left` as the name (`rfind` gave -1), and the id is
    that name.
   */
  lemma DefinitionWithoutParen(line: string, colon: nat)
    requires colon < |line|
    requires var left := Strip(line[..colon], Spaces); left != [] && '(' !in left
    ensures var left := Strip(line[..colon], Spaces);
            var f := DefinitionFields(line, colon);
            && f.Success?
            && f.value.name == Strip(left[..|left| - 1], Spaces)
            && f.value.id == f.value.name
  {
    var left := Strip(line[..colon], Spaces);
    var tail := Slice(left, -1, |left|);
    assert |tail| == 1;
    assert Slice(tail, 1, -1) == "";
  }

  /**
    With `left` not ending in `)` but holding a `(`, the last one at `p`, there
    is no alias: the name is the text before that `(`, stripped of spaces, and
    the id is the name.
   */
  lemma DefinitionUnaliased(line: string, colon: nat, p: nat)
    requires colon < |line|
    requires var left := Strip(line[..colon], Spaces);
             && p < |left| && left[|left| - 1] != ')' && left[p] == '(' && '(' !in left[p + 1..]
    ensures var left := Strip(line[..colon], Spaces);
            var f := DefinitionFields(line, colon);
            && f.Success?
            && f.value.name == Strip(left[..p], Spaces)
            && f.value.id == f.value.name
  {
    var left := Strip(line[..colon], Spaces);
    RFindUnique(left, '(', p);
  }

  // ---------------------------------------------------------------- elaborations

  /** The elaboration handler up to the `get`: `parent < (alias) content`, the alias optional. */
  function ElaborationFields(line: string, lt: nat): Result<Elab, ErrorKind>
    requires lt < |line|
  {
    var left := Strip(line[..lt], Spaces);
    var right := Strip(line[lt + 1..], Spaces);
    if right == [] then Failure(IndexOutOfRange)
    else
      var close := Find(right, ')');
      // as in the definition handler, `alias.strip(" ")` is discarded
      var alias := if right[0] == '(' then Slice(right, 1, close) else "";
      var content := Strip(Slice(right, close + 1, |right|), Spaces);
      var id := if alias == [] then content else alias;
      Success(Elab(left, Fields(id, id, content)))
  }

  /** An elaboration fails, on `right[0]`, exactly when nothing but spaces follows the `<`. */
  lemma ElaborationFails(line: string, lt: nat)
    requires lt < |line|
    ensures ElaborationFields(line, lt).Failure? <==> forall i :: lt < i < |line| ==> line[i] == ' '
    ensures ElaborationFields(line, lt).Failure? ==> ElaborationFields(line, lt).error == IndexOutOfRange
  {
    var s := line[lt + 1..];
    StripEmpty(s, Spaces);
    assert forall i :: lt < i < |line| ==> s[i - lt - 1] == line[i];
  }

  /**
    `right` starting with `(` and with its first `)` at `q`: the parent is the
    text before the `<`, stripped of spaces; the content is what follows the
    `)`, stripped of spaces; the child's id and name are the text between the
    parentheses, verbatim, or the content when that text is empty.
   */
  lemma ElaborationAliased(line: string, lt: nat, q: nat)
    requires lt < |line|
    requires var right := Strip(line[lt + 1..], Spaces);
             && 0 < q < |right| && right[0] == '(' && right[q] == ')' && ')' !in right[..q]
    ensures var right := Strip(line[lt + 1..], Spaces);
            var e := ElaborationFields(line, lt);
            var c := Strip(right[q + 1..], Spaces);
            var a := if q == 1 then c else right[1..q];
            && e.Success?
            && e.value == Elab(Strip(line[..lt], Spaces), Fields(a, a, c))
  {
    var right := Strip(line[lt + 1..], Spaces);
    FindUnique(right, ')', q);
    assert Slice(right, 1, q) == right[1..q];
    assert right[q + 1..|right|] == right[q + 1..];
    assert Slice(right, q + 1, |right|) == right[q + 1..];
  }

  /**
    A `)` with no `(` leading the right side is still where the content begins:
    with the first `)` at `q`, the child's id, name and content are all the text
    after it, stripped of spaces (`p < a (b) c` gives the child `c`).
   */
  lemma ElaborationParenLater(line: string, lt: nat, q: nat)
    requires lt < |line|
    requires var right := Strip(line[lt + 1..], Spaces);
             && q < |right| && right[0] != '(' && right[q] == ')' && ')' !in right[..q]
    ensures var right := Strip(line[lt + 1..], Spaces);
            var c := Strip(right[q + 1..], Spaces);
            ElaborationFields(line, lt) == Success(Elab(Strip(line[..lt], Spaces), Fields(c, c, c)))
  {
    var right := Strip(line[lt + 1..], Spaces);
    FindUnique(right, ')', q);
    assert Slice(right, q + 1, |right|) == right[q + 1..];
  }

  /**
    `right` starting with `(` but with no `)`: `find` gives -1, so the alias is
    `right[1:-1]` and the content is the whole of `right`; `p < (abc` adds the
    child `ab` with content `(abc`, and when that alias is empty the id and name
    are the content.
   */
  lemma ElaborationUnclosed(line: string, lt: nat)
    requires lt < |line|
    requires var right := Strip(line[lt + 1..], Spaces); right != [] && right[0] == '(' && ')' !in right
    ensures var right := Strip(line[lt + 1..], Spaces);
            var a := if |right| <= 2 then right else right[1..|right| - 1];
            ElaborationFields(line, lt) == Success(Elab(Strip(line[..lt], Spaces), Fields(a, a, right)))
  {
    var right := Strip(line[lt + 1..], Spaces);
    assert Slice(right, 0, |right|) == right;
    StripIdempotent(line[lt + 1..], Spaces);
  }

  /** With no parentheses after the `<`, id, name and content are all the text after the `<`, stripped of spaces. */
  lemma ElaborationUnaliased(line: string, lt: nat)
    requires lt < |line|
    requires var right := Strip(line[lt + 1..], Spaces); right != [] && right[0] != '(' && ')' !in right
    ensures var c := Strip(line[lt + 1..], Spaces);
            ElaborationFields(line, lt) == Success(Elab(Strip(line[..lt], Spaces), Fields(c, c, c)))
  {
    var right := Strip(line[lt + 1..], Spaces);
    assert Slice(right, 0, |right|) == right;
    StripIdempotent(line[lt + 1..], Spaces);
  }

  // ---------------------------------------------------------------- connections

  /** The connection handler's slicing: `origin <label> d1 & d2 & ...`; the tokens keep their spaces. */
  function ConnectionFields(line: string, lt: int, gt: nat): Link
    requires -1 <= lt < gt < |line|
  {
    var left := Strip(Slice(line, 0, lt), Spaces);
    var relation := Strip(Slice(line, lt + 1, gt), Spaces);
    var right := Strip(Slice(line, gt + 1, |line|), Spaces);
    // `txt.strip(" ")` is discarded, so each token is used as split
    Link(left, relation, Split(right, '&'))
  }

  /**
    The origin is the text before the `<` and the label the text between `<` and
    `>`, both stripped of spaces; the tokens, one more than the `&`s after the
    `>`, joined back with `&` give that text stripped of spaces.
   */
  lemma ConnectionSpec(line: string, lt: nat, gt: nat)
    requires lt < gt < |line|
    ensures var c := ConnectionFields(line, lt, gt);
            var right := Strip(line[gt + 1..], Spaces);
            && c.origin == Strip(line[..lt], Spaces)
            && c.relation == Strip(line[lt + 1..gt], Spaces)
            && |c.targets| == Count(right, '&') + 1
            && Join(c.targets, '&') == right
  {
    var c := ConnectionFields(line, lt, gt);
    var right := Strip(line[gt + 1..], Spaces);
    assert c.targets == Split(right, '&') by {
      assert Slice(line, gt + 1, |line|) == line[gt + 1..];
    }
    assert c.origin == Strip(line[..lt], Spaces) by {
      assert Slice(line, 0, lt) == line[..lt];
    }
    assert c.relation == Strip(line[lt + 1..gt], Spaces) by {
      assert Slice(line, lt + 1, gt) == line[lt + 1..gt];
    }
    SplitCount(right, '&');
    JoinSplit(right, '&');
  }

  /**
    A line with a `>` and no `<` reaches the connection handler with `lt == -1`:
    the origin is then the whole line but its last character, the label is
    everything before the `>`, and the tokens are the text after it, split on `&`.
   */
  lemma ConnectionWithoutLt(line: string, gt: nat)
    requires gt < |line|
    ensures var c := ConnectionFields(line, -1, gt);
            && c.origin == Strip(line[..|line| - 1], Spaces)
            && c.relation == Strip(line[..gt], Spaces)
            && c.targets == Split(Strip(line[gt + 1..], Spaces), '&')
  {
    assert Slice(line, gt + 1, |line|) == line[gt + 1..];
  }
}
