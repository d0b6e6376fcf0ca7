# Causality notation parser and flashcards, modelled in Dafny

The Causality repository has a small line-oriented notation for causal graphs.
Its parser, `Graph.parse`, reads a text one line at a time. Each line is one of
four kinds:

- a comment (`# ...`);
- a definition (`name (alias) : content`), which registers a top-level node;
- an elaboration (`parent < (alias) content`), which adds a child to a
  registered node;
- a connection (`origin <label> d1 & d2`), which appends destinations to the
  origin's list for that label.

A destination that is not registered becomes an unregistered stand-in node.
Nodes live in `Node_manager` registries, which are insertion-ordered dicts.
Connections live in `Connection_manager` tables.

The flashcards extension turns a parsed graph into questions. It asks one
question for each child of each top-level node: `"{node content} . {child name} = ?"`,
answered by the child's content. It keeps a loaded graph and the list of questions
asked so far as module-level state.

The project has these modules:

- `Wrappers`: `Option`, `Result` and `Outcome`.
- `PyText`: the Python string operations the parser uses. These are `find`,
  `rfind`, slicing with Python's bounds, `strip` and `split`.
- `PyDict`: an insertion-ordered dict, with `d[k] = v` and `values()`.
- `Syntax`:
  - how the text is cut into lines;
  - the diagnostic window around each line;
  - the classifier;
  - the slicing each handler does before it touches a registry.
- `GraphModel`: the graph as a value (`Store`), and what one line (`ApplyLine`)
  and a whole text (`Parse`) do to it. Properties of parsing are proved here.
- `CausalityLang`: the heap objects.
  - `Node`, `NodeManager`, `ConnectionManager` and `Graph` are classes whose
    methods update their fields in place.
  - Every `Graph` method is proved to move the registry exactly as the
    matching `GraphModel` function says.
  - The graph's ghost bookkeeping is a `Ledger` value. It records where every
    registry sits and what the heap reads back as. It is passed in and handed
    back by each method.
- `Flashcards`:
  - the questions as a function of the graph value (`QuestionsOf`);
  - how each kind of line changes them;
  - the module state as a class `Session`, whose `AttributeQuestions` is
    proved to append exactly `QuestionsOf` of the chosen graph.

The code behaves in several places in ways its notation does not suggest.
The model follows the code:

- **A definition without `(`.** For one without an alias, the code takes the
  name as `left[:left.rfind("(")]`. With no `(`, `rfind` gives -1, so the last
  character is dropped. `protref : X` therefore registers `protre`, and a
  following `protref < (prots) Y` fails because no node is registered under
  `protref`. The source itself notes, at causality_lang.py:427, that a
  definition without parentheses has parsing issues.
  `Syntax.DefinitionWithoutParen` states this behaviour.
- **A definition with a `(` not at the end.** When `left` does not end in `)`
  but has a `(`, the name is the text before the last `(`: `a (b) c : x`
  registers `a` under the id `a`, and the rest of `left` is lost
  (causality_lang.py:213,
  `Syntax.DefinitionUnaliased`).
- **An elaboration whose `(` comes later.** When the right side does not start
  with `(` but has a `)`, the child is the text after the first `)`:
  `p < foo (bar) baz` adds the child `baz` (causality_lang.py:243,
  `Syntax.ElaborationParenLater`).
- **An elaboration with an unclosed `(`.** When the right side starts with `(`
  but has no `)`, `find` gives -1. The alias is then `right[1:-1]` and the
  content is the whole right side: `p < (abc` adds the child `ab` with content
  `(abc` (causality_lang.py:239-243, `Syntax.ElaborationUnclosed`).
- **Aliases and destination tokens keep their spaces.** The calls `alias.strip(" ")`
  and `txt.strip(" ")` discard their results. So, with `a` registered,
  `a <influenced> b & c` yields the stand-ins `"b "` and `" c"`, not `"b"` and `"c"`.
- **A `>` with no `<` is a connection, not malformed.** `find` returns -1
  for the missing `<`, and -1 is less than the position of `>`. The origin is
  then the whole line minus its last character (`Syntax.ConnectionWithoutLt`).
- **An empty left side of a definition, or an empty right side of an
  elaboration, fails.** A definition whose text before the `:` is all spaces
  fails on `left[-1]`. So does an elaboration with only spaces after the `<`,
  on `right[0]`. The model has the error `IndexOutOfRange` for these. An empty
  name or content alone does not fail: `(x) : y` registers the name `""`
  under the id `x`, and `p < (a)` adds a child `a` with empty content.
- **Which errors exit the process.** The error raised by `add`, `get` and
  `find_node` is a plain Python exception. The exception decorator re-raises
  it; only the invalid-syntax error is printed before the process exits.
  Either way the rest of the text is not parsed. The model ends the parse at
  the first failing line, with that line's error.

## Model

| member | source | states |
|---|---|---|
| PyText.Find | causality_lang/causality_lang.py:203 | `find` returns -1 exactly when the character is absent, otherwise the index of its first occurrence |
| PyText.FindUnique | causality_lang/causality_lang.py:203 | the first occurrence is the only index `find` can return |
| PyText.RFind | causality_lang/causality_lang.py:209 | `rfind` returns -1 exactly when the character is absent, otherwise the index of its last occurrence |
| PyText.RFindUnique | causality_lang/causality_lang.py:213 | the last occurrence is the only index `rfind` can return |
| PyText.Slice | causality_lang/causality_lang.py:209 | a Python slice never exceeds the string, and with in-range bounds takes exactly the characters between them |
| PyText.StripShape | causality_lang/causality_lang.py:204-205 | `strip` returns a contiguous piece of its input; the characters cut from each end are all in the stripped set, and neither end of the result is |
| PyText.StripEmpty | causality_lang/causality_lang.py:204-205 | `strip` leaves nothing exactly when every character is one it strips |
| PyText.StripIdempotent | causality_lang/causality_lang.py:218 | stripping an already stripped string changes nothing, so the second `strip` of the content is a no-op |
| PyText.JoinSplit | causality_lang/causality_lang.py:261 | joining the pieces of `split("&")` with `&` gives back the string |
| PyText.SplitCount | causality_lang/causality_lang.py:261 | `split` yields exactly one piece more than there are separators |
| PyDict.PutSpec | causality_lang/causality_lang.py:116 | after `d[k] = v`, `k` holds `v` and every other key keeps its value |
| PyDict.PutNewValues | causality_lang/causality_lang.py:116 | assigning a new key appends its value to `values()` |
| PyDict.PutOldValues | causality_lang/causality_lang.py:249-250 | assigning an existing key replaces its value in place in `values()`, as changing a registered node in place keeps its place in `get_all` |
| Syntax.NonBlankShape | causality_lang/causality_lang.py:176 | every kept line is non-empty with no whitespace at either end, and there are no more kept lines than pieces |
| Syntax.LinesConcat | causality_lang/causality_lang.py:176 | the kept lines of two texts joined by a line break are those of the first followed by those of the second |
| Syntax.BlankLine | causality_lang/causality_lang.py:176 | a text with no line break and only whitespace gives no line at all |
| Syntax.SingleLine | causality_lang/causality_lang.py:176 | a text with no line break and some non-whitespace is the single line it strips to |
| Syntax.ContextSpec | causality_lang/causality_lang.py:180-190 | the window lists, in increasing order and with their texts, exactly the existing lines within 3 of the current one, and marks only the current line |
| Syntax.ClassifySpec | causality_lang/causality_lang.py:199-254 | the classifier's precedence in both directions: comment on a leading `#`, then definition at the first `:`, then elaboration, then connection (also with no `<`), else malformed; the positions found are the first `:`, the first `<` and the first `>` |
| Syntax.DefinitionFails | causality_lang/causality_lang.py:204-208 | a definition fails, with an index error, exactly when the text before the `:` is only spaces |
| Syntax.DefinitionContent | causality_lang/causality_lang.py:205-218 | the content is the text after the first `:`, stripped of spaces |
| Syntax.DefinitionAliased | causality_lang/causality_lang.py:207-216 | with `left` ending in `)`, the id is the verbatim text after the last `(`, or the name when that text is empty; the name is the text before the `(`, stripped |
| Syntax.DefinitionWithoutParen | causality_lang/causality_lang.py:208-216 | with no `(` in `left`, the name drops the last character of `left` and the id is that name |
| Syntax.DefinitionUnaliased | causality_lang/causality_lang.py:207-216 | when `left` does not end in `)` but has a `(`, the name is the text before the last `(`, stripped, and the id is that name |
| Syntax.ElaborationFails | causality_lang/causality_lang.py:235-238 | an elaboration fails, with an index error, exactly when only spaces follow the `<` |
| Syntax.ElaborationAliased | causality_lang/causality_lang.py:234-248 | with `(alias)` leading the right side, the parent is the text before the `<`, stripped; the child's id and name are the verbatim alias, or the content when `()` is empty; the content is what follows the `)`, stripped |
| Syntax.ElaborationParenLater | causality_lang/causality_lang.py:238-246 | with a `)` but no leading `(`, the child's id, name and content are the text after the first `)`, stripped |
| Syntax.ElaborationUnclosed | causality_lang/causality_lang.py:237-248 | with a leading `(` and no `)`, the child's id and name are the right side less its first and last characters, or the whole right side when that is empty, and the content is the whole right side |
| Syntax.ElaborationUnaliased | causality_lang/causality_lang.py:237-248 | with no parentheses, the child's id, name and content are all the stripped text after the `<` |
| Syntax.ConnectionSpec | causality_lang/causality_lang.py:255-261 | the origin and the label are the stripped texts before and between `<` and `>`; the tokens number one more than the `&`s and join back to the stripped right side |
| Syntax.ConnectionWithoutLt | causality_lang/causality_lang.py:254-261 | with no `<`, the origin is the line minus its last character, the label is the text before the `>`, and the tokens are the text after the `>`, stripped and split on `&` |
| GraphModel.RegisterSpec | causality_lang/causality_lang.py:112-116 | `add` succeeds exactly when the id is new; then `get(id)` gives the node, other ids are untouched and the node is last in `get_all`; otherwise a redefinition error |
| GraphModel.RegisterAll | causality_lang/causality_lang.py:123-124 | after a run of successful `add`s, `get_all` lists the added nodes after the earlier ones, in the order they were added |
| GraphModel.ExtendSpec | causality_lang/causality_lang.py:144-147 | after `add(label, nodes)`, the label's list is its old list (empty if new) followed by `nodes`; other labels keep theirs; a new label goes last |
| GraphModel.ExtendTwice | causality_lang/causality_lang.py:144-147 | using a label twice accumulates the two lists in order |
| GraphModel.ResolveAllSpec | causality_lang/causality_lang.py:261-267 | one destination per token, in order: the registered node for a registered id, otherwise a stand-in carrying the token verbatim |
| GraphModel.ElaborateSpec | causality_lang/causality_lang.py:248-251 | an elaboration fails with a missing-node error exactly when the parent is absent, and with a redefinition exactly when the parent has a child of that id; otherwise only the parent's children change, gaining the child last |
| GraphModel.ConnectSpec | causality_lang/causality_lang.py:259-269 | a connection fails, with a missing-node error, exactly when the origin is absent; otherwise only the origin's list for the label changes, extended by the resolved destinations |
| GraphModel.CommentLine | causality_lang/causality_lang.py:200-201 | a comment changes nothing and cannot fail |
| GraphModel.MalformedLine | causality_lang/causality_lang.py:272-274 | a line fails with invalid syntax carrying its window exactly when it is of no known form |
| GraphModel.DefinitionLineSpec | causality_lang/causality_lang.py:203-226 | a definition line fails with an index error exactly when only spaces precede its `:`, with a redefinition exactly when its id is taken, and otherwise registers a node with its fields and no children or links, last in `get_all`, leaving every other id alone |
| GraphModel.ElaborationLineSpec | causality_lang/causality_lang.py:229-251 | an elaboration line fails with an index error exactly when only spaces follow its `<`, with a missing-node error exactly when the parent is unregistered, with a redefinition exactly when the parent has a child of that id, and otherwise adds the child last among the parent's children and changes nothing else |
| GraphModel.ConnectionLineSpec | causality_lang/causality_lang.py:254-270 | a connection line fails, with a missing-node error, exactly when its origin is unregistered; otherwise only the origin's list for its label changes, extended by one destination per token |
| GraphModel.DefineWellFormed | causality_lang/causality_lang.py:220-221 | a registered definition keeps every node under its own id and every resolved destination registered |
| GraphModel.ElaborateWellFormed | causality_lang/causality_lang.py:248-250 | a successful elaboration keeps the registry well formed |
| GraphModel.ConnectWellFormed | causality_lang/causality_lang.py:259-269 | a connection keeps the registry well formed: each new destination is registered or a stand-in |
| GraphModel.ApplyLineWellFormed | causality_lang/causality_lang.py:197-274 | every successful line keeps the registry well formed |
| GraphModel.ApplyLineContext | causality_lang/causality_lang.py:192-195 | the window only appears in the invalid-syntax error: success and what a line builds do not depend on it |
| GraphModel.RunFail | causality_lang/causality_lang.py:93-103 | once a line fails, the parse ends with that error and with what the earlier lines built |
| GraphModel.RunSticky | causality_lang/causality_lang.py:177-195 | after a failed line no further line is handled |
| GraphModel.RunFailure | causality_lang/causality_lang.py:177-195 | a failed parse failed at one line: every earlier line succeeded, the registry is what they built, and the error is that line's |
| GraphModel.RunWellFormed | causality_lang/causality_lang.py:175-195 | parsing keeps the registry well formed, whether or not it stops early |
| GraphModel.RunPrefix | causality_lang/causality_lang.py:177-195 | handling the first lines of a longer list builds what handling them alone builds |
| GraphModel.RunSuffix | causality_lang/causality_lang.py:177-195 | after a prefix that succeeded, the rest of the lines build what they would build alone from that registry |
| GraphModel.ParseConcat | causality_lang/causality_lang.py:175-195 | parsing two texts joined by a line break builds what parsing the first and then the second builds, and fails exactly when the second does |
| GraphModel.ParseConcatFail | causality_lang/causality_lang.py:175-195 | when the first text fails, the joined text fails at the same point with the same registry |
| CausalityLang.Node.constructor | causality_lang/causality_lang.py:150-156 | a node holds its three strings and two fresh, empty registries |
| CausalityLang.NodeManager.constructor | causality_lang/causality_lang.py:109-110 | a new registry is empty |
| CausalityLang.NodeManager.Add | causality_lang/causality_lang.py:112-121 | `add` succeeds exactly for a new id; after it `get(id)` returns the node and every other id's `get` is unchanged; a refusal changes nothing |
| CausalityLang.NodeManager.FindNode | causality_lang/causality_lang.py:126-137 | the search fails with a missing-node error for an unstored id; otherwise it returns the first match in breadth-first order, which is the seed when the seed is stored under its own id |
| CausalityLang.FirstMatch | causality_lang/causality_lang.py:131-137 | the match is the first node in the list with the id sought; with no match the error is the one raised when the frontier empties |
| CausalityLang.ConnectionManager.constructor | causality_lang/causality_lang.py:141-142 | a new table is empty |
| CausalityLang.ConnectionManager.Add | causality_lang/causality_lang.py:144-147 | `add` leaves the table as `Extend` says |
| CausalityLang.Graph.constructor | causality_lang/causality_lang.py:160-161 | a new graph has a new registry of its own, is valid, and reads back as the empty registry |
| CausalityLang.Graph.ModelWellFormed | causality_lang/causality_lang.py:112-116 | the registry of a valid graph reads back well formed |
| CausalityLang.Graph.Shallow | causality_lang/causality_lang.py:126-135 | a registered node is stored under its own id, and its children have no children, so `find_node` stops at the seed |
| CausalityLang.Graph.ReadBack | causality_lang/causality_lang.py:123-124 | `get_all` lists the nodes in the model's order, each with the model's content and children |
| CausalityLang.Graph.Define | causality_lang/causality_lang.py:220-221 | the definition handler's `Node(...)` and `add` move the registry exactly as `GraphModel.Define` |
| CausalityLang.Graph.Elaborate | causality_lang/causality_lang.py:248-250 | creating the child, `get` and `children.add` move the registry exactly as `GraphModel.Elaborate` |
| CausalityLang.Graph.Destination | causality_lang/causality_lang.py:263-266 | a token gives the registered node with that id, or a fresh stand-in `Node(t, t, t)` |
| CausalityLang.Graph.Destinations | causality_lang/causality_lang.py:260-267 | the token loop gives one node per token, reading back as `GraphModel.ResolveAll`; each is a new stand-in or a registered node |
| CausalityLang.Graph.Connect | causality_lang/causality_lang.py:259-269 | `find_node`, the token loop and `connections.add` move the registry exactly as `GraphModel.Connect` |
| CausalityLang.Graph.DefinitionLine | causality_lang/causality_lang.py:203-226 | the definition branch moves the registry as `ApplyLine` says, and a failure changes nothing |
| CausalityLang.Graph.ElaborationLine | causality_lang/causality_lang.py:229-251 | the elaboration branch moves the registry as `ApplyLine` says, and a failure changes nothing |
| CausalityLang.Graph.ConnectionLine | causality_lang/causality_lang.py:254-270 | the connection branch moves the registry as `ApplyLine` says, and a failure changes nothing |
| CausalityLang.Graph.ParseLine | causality_lang/causality_lang.py:197-274 | `parse_line` moves the registry as `ApplyLine` says for every form, and a failing line changes nothing |
| HealthCheck.Test1 | causality_lang/causality_lang.py:305-319 | the first test's definition parses and registers `protref` with its name and content, and nothing else |
| HealthCheck.Test2 | causality_lang/causality_lang.py:321-338 | the second test's indented text parses, and `protref` gains the child `prots` with its content |
| HealthCheck.Test6 | causality_lang/causality_lang.py:399-417 | the sixth test's indented text parses, and the unaliased elaboration gives `protref` a child whose id, name and content are all the stripped text |
| CausalityLang.Graph.Parse | causality_lang/causality_lang.py:175-195 | `parse` leaves the graph valid, with the registry and outcome that `GraphModel.Parse` gives for the text |
| Flashcards.CardsSpec | extensions/flashcards/flashcards.py:28-34 | one question per child, in the children's order, asking `"{content} . {name} = ?"` and answered by the child's content |
| Flashcards.DeckAppend | extensions/flashcards/flashcards.py:27-34 | the questions about two lists of nodes are those about the first followed by those about the second |
| Flashcards.DeckMembers | extensions/flashcards/flashcards.py:27-34 | a question is asked exactly when it is the question about some child of some node |
| Flashcards.DeckCount | extensions/flashcards/flashcards.py:27-34 | exactly one question per (node, child) pair |
| Flashcards.DefineAddsNoCards | extensions/flashcards/flashcards.py:27-34 | a definition line adds no question |
| Flashcards.ConnectKeepsCards | extensions/flashcards/flashcards.py:27-34 | a connection line changes no question |
| Flashcards.ElaborateAddsCard | extensions/flashcards/flashcards.py:27-34 | an elaboration line inserts exactly one question, about the new child under its parent's content, and leaves the others in order |
| Flashcards.Session.constructor | extensions/flashcards/flashcards.py:14-15 | the extension starts with no graph and no questions |
| Flashcards.Session.Load | extensions/flashcards/flashcards.py:18-20 | `load` keeps the graph and leaves the questions alone |
| Flashcards.Session.AskAbout | extensions/flashcards/flashcards.py:28-34 | the inner loop appends the questions about one node's children, in order |
| Flashcards.Session.AskAboutAll | extensions/flashcards/flashcards.py:27-34 | the outer loop appends the questions about every node, node by node |
| Flashcards.Session.AttributeQuestions | extensions/flashcards/flashcards.py:23-34 | it fails exactly when no graph is given or kept; otherwise it appends `QuestionsOf` the chosen graph, the given one winning, and keeps the loaded graph |
| Flashcards.Session.HealthCheck | extensions/flashcards/flashcards.py:37-51 | a new graph parses the text with the outcome `GraphModel.Parse` gives from the empty registry; a failure loads and asks nothing; otherwise the new graph is kept and exactly `QuestionsOf` what the text parses to is appended |

## Left out

- `format_str` and the colour constants (causality_lang.py:9-53) only add ANSI
  escapes to messages. The diagnostic window is modelled as a list of
  (index, text, current) entries instead of a formatted string. The printed line
  number is that index plus one.
- `format_debug_info` (causality_lang.py:163-173) only formats strings.
- The exception classes made at run time by `nodelang_exception`
  (causality_lang.py:56-90) are replaced by the closed `ErrorKind` type.
- What the exception decorator (causality_lang.py:93-105) does at the process
  level is left out: printing, `sys.exit` and re-raising. Only its effect on
  parsing is modelled: the parse stops at the first failing line.
- `dump` (causality_lang.py:276-278) is a deep copy of the registry. It has no
  effect on the graph.
- `__main__` in both files only prints. The parser's `health_check` tests
  (causality_lang.py:297-464) print their results; the module `HealthCheck`
  states what the first, second and sixth tests parse to, and the other tests
  and the printing are left out.
- Flashcards.Session.HealthCheck: the flashcards `health_check`
  (flashcards.py:37-51) parses a fixed text; the model takes the text as a
  parameter. Its unused `get_all` into the global `nodes` is left out.
- The `neonotebook` editor is outside the parser and the extension.
- CausalityLang.Graph.constructor: the optional `nodes` argument, a registry to
  share, is not modelled. The graph's bookkeeping would have to be built for an
  arbitrary existing registry. Every graph starts empty.
- CausalityLang.NodeManager.FindNode: the search is proved only for a seed
  whose children have no children. This is true of every registry parsing
  builds. For deeper trees it would need a termination argument over arbitrary,
  possibly cyclic, node structures, and in Python it may then not terminate.
- CausalityLang.Graph.Parse: the graph's bookkeeping is a ghost value that
  every method takes and returns. The model does not hold it in a field.
- Flashcards.Session.AttributeQuestions: the failed `assert graph is not None`
  is modelled as returning `false` with nothing changed. Under `python -O` the
  check is skipped and the call fails on `None.nodes` instead; that case is not
  modelled.
- Strings are sequences of code points. `strip()` with no argument uses
  Python's set of whitespace code points. No Unicode normalisation is involved,
  and none is in the source.
