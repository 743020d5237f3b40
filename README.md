# XMLBeautifier handler model

A Dafny model of the SAX callback handler inside tquadrat's `XMLBeautifier`:
the private class `XMLHandler`. The parser reports start-element, end-element,
processing-instruction and end-document events, and the handler turns them
into an `XMLDocument` tree. The handler keeps three fields:

- the document, absent until the first start-element;
- a stack of open elements;
- a buffer of processing instructions.

For every start-element, the attribute helper sorts each attribute into one
of two kinds. A name starting with `xmlns` is a namespace declaration and
goes to the target's namespace setter. Any other name is an ordinary
attribute and goes to the target's attribute setter.

Files and modules:

- `wrappers.dfy` (`Wrappers`): `Option`, the model of Java's nullable
  references and `Optional`.
- `names.dfy` (`Names`): the choice between qualified and local name, and the
  split of a name at `':'` with its inverse `Join`.
- `attributes.dfy` (`Attributes`): the classification of one attribute
  (`Classify`) and the index loop of `setAttributes` (`SetAttributes`). It
  also holds the ordered setter calls that loop produces (`Settings`) and
  what each setter receives (`Ordinary`, `Declarations`).
- `tree.dfy` (`Tree`): the built tree. Elements below the root live in an
  arena indexed by handle. Each element names its parent and lists its
  children's handles. The root is the `Document`.
- `machine.dfy` (`Machine`): the handler as a pure state machine. `Step`
  performs one callback and `Run` performs a sequence of them. `Wellformed`
  is the invariant on the tree and the stack, and the multi-event
  properties are lemmas here.
- `handler.dfy` (`Beautifier`): the class `Handler`. Its four fields are
  updated in place by the callback methods, and each method is proved to
  perform exactly `Machine.Step`. `Process` feeds a fresh handler an event
  sequence and falls back to `"<No Output>"`.
- `scenarios.dfy` (`Scenarios`): two small documents worked through the
  model.

The model follows the code on points where a general description of this
component would say something else:

- The root element is never pushed onto the stack. Elements directly below
  the root are attached through the empty-stack branch, which is the normal
  path, not a fallback. The root's own end tag therefore pops nothing.
- Any attribute whose name starts with `xmlns` is a declaration, including
  `xmlnsfoo`. Such a name has no `':'`, so it binds the default namespace.
- An element can receive any number of namespace bindings: one per
  declaration, in attribute order. The root's declarations go to the
  document's namespace setter.
- The handler does not override the character-data callback, so text
  content is dropped. The model therefore has no text event.

## Model

| member | source | states |
|---|---|---|
| `Names.NameOf` | src/main/java/org/tquadrat/foundation/tools/XMLBeautifier.java:226 | The name used for an element, and for an attribute at line 203: the qualified name when the parser supplies one, otherwise the local name. |
| `Names.SplitOn` | src/main/java/org/tquadrat/foundation/tools/XMLBeautifier.java:208 | Splitting a name at `':'` gives at least one part, and no part contains `':'`. |
| `Names.JoinSplit` | src/main/java/org/tquadrat/foundation/tools/XMLBeautifier.java:208 | Joining the parts of a split with `':'` gives back the name, so the split loses nothing. |
| `Names.SplitJoin` | src/main/java/org/tquadrat/foundation/tools/XMLBeautifier.java:208 | Splitting the join of separator-free parts gives back exactly those parts: the inverse direction. |
| `Names.SingleSegment` | src/main/java/org/tquadrat/foundation/tools/XMLBeautifier.java:210 | A split has exactly one part if and only if the name contains no `':'`. This is the test that selects a default binding. |
| `Attributes.Classify` | src/main/java/org/tquadrat/foundation/tools/XMLBeautifier.java:206-216 | An attribute becomes a namespace binding if and only if its name starts with `xmlns`. The binding's URI is the attribute value, and it has no prefix exactly when the name has no `':'`. Every other attribute goes to the attribute setter with name and value unchanged. |
| `Attributes.PrefixedDeclaration` | src/main/java/org/tquadrat/foundation/tools/XMLBeautifier.java:208-210 | For `xmlns…:p` (optionally followed by more `:`-parts), the prefix is the second part `p` and the URI is the value. |
| `Attributes.DefaultDeclaration` | src/main/java/org/tquadrat/foundation/tools/XMLBeautifier.java:210 | A bare `xmlns` attribute binds the default namespace (no prefix) to its value. |
| `Attributes.Settings` | src/main/java/org/tquadrat/foundation/tools/XMLBeautifier.java:201-217 | There is one setter call per attribute index, and call i is the classification of attribute i. |
| `Attributes.SetAttributes` | src/main/java/org/tquadrat/foundation/tools/XMLBeautifier.java:198-218 | The loop visits indices 0 to length-1, each exactly once. It issues one setter call per attribute, in index order, and call i is the classification of attribute i. |
| `Attributes.SettingsAppend` | src/main/java/org/tquadrat/foundation/tools/XMLBeautifier.java:201 | The calls for two consecutive runs of attributes are the first run's calls followed by the second run's: the calls follow source order. |
| `Attributes.SplitAppend` | src/main/java/org/tquadrat/foundation/tools/XMLBeautifier.java:211-215 | What each setter receives from consecutive runs of calls is the first run's share followed by the second run's, so each setter sees its attributes in call order. |
| `Attributes.SettingsPartition` | src/main/java/org/tquadrat/foundation/tools/XMLBeautifier.java:206-216 | Every call reaches exactly one setter. The number of attributes set plus the number of bindings set equals the number of attributes. |
| `Attributes.OrdinaryMembers` | src/main/java/org/tquadrat/foundation/tools/XMLBeautifier.java:213-216 | The attribute setter receives (name, value) if and only if some attribute whose name does not start with `xmlns` has that name and value. Declarations never reach it. |
| `Attributes.DeclarationMembers` | src/main/java/org/tquadrat/foundation/tools/XMLBeautifier.java:206-212 | The namespace setter receives a binding if and only if some `xmlns` attribute classifies to exactly that binding. |
| `Tree.ChildIndicesExact` | src/main/java/org/tquadrat/foundation/tools/XMLBeautifier.java:237 | A child list built by appending at creation holds every child of its parent and nothing else, in strictly increasing creation order. |
| `Machine.OpenParent` | src/main/java/org/tquadrat/foundation/tools/XMLBeautifier.java:235-243 | A new element's parent is the element on top of the stack, or the document root when the stack is empty. It always names an existing element. |
| `Machine.Attach` | src/main/java/org/tquadrat/foundation/tools/XMLBeautifier.java:234-246 | Creating an element below its parent: the arena grows by exactly that element, the handle is appended to the parent's child list only, and the handle is pushed. Nothing else changes. |
| `Machine.Step` | src/main/java/org/tquadrat/foundation/tools/XMLBeautifier.java:131-248 | One callback. The first start-element creates the document and leaves arena and stack alone. A later one creates one element below `OpenParent`, pushes it (the stack grows by one) and keeps the document. An end-element pops one entry, or does nothing on an empty stack. Every instruction is buffered in every state. End-document appends the whole buffer to the document, in order. |
| `Machine.InitWellformed` | src/main/java/org/tquadrat/foundation/tools/XMLBeautifier.java:101-123 | A fresh handler (no document, empty stack and buffer) satisfies the tree-and-stack invariant. |
| `Machine.AttachPreservesWellformed` | src/main/java/org/tquadrat/foundation/tools/XMLBeautifier.java:232-247 | Linking a new element keeps the invariant: parents precede children, child lists are exact, and the stack is a chain. |
| `Machine.AddChildKeepsListsExact` | src/main/java/org/tquadrat/foundation/tools/XMLBeautifier.java:237-243 | Appending the new handle to its parent's list, and to no other list, keeps every child list exact. |
| `Machine.PushKeepsChain` | src/main/java/org/tquadrat/foundation/tools/XMLBeautifier.java:246 | Pushing an element whose parent is the old top (or the root, when the stack was empty) keeps the stack a parent chain. |
| `Machine.PopKeepsChain` | src/main/java/org/tquadrat/foundation/tools/XMLBeautifier.java:143 | Popping keeps the stack a parent chain. |
| `Machine.StepPreservesWellformed` | src/main/java/org/tquadrat/foundation/tools/XMLBeautifier.java:131-248 | Every callback preserves the invariant. The stack, read bottom to top, stays the chain of open elements below the root, each the parent of the next. |
| `Machine.Run` | src/main/java/org/tquadrat/foundation/tools/XMLBeautifier.java:338 | Performing the events in order: a document exists exactly when one existed or some event was a start-element. The buffer gains every instruction of the events, in order. |
| `Machine.RunPreservesWellformed` | src/main/java/org/tquadrat/foundation/tools/XMLBeautifier.java:131-248 | Any sequence of events that the handler can receive keeps the invariant. |
| `Machine.RunAppend` | src/main/java/org/tquadrat/foundation/tools/XMLBeautifier.java:338 | Two batches of events performed one after the other give the same state as their concatenation. The second batch may contain end-document events whenever the document exists after the first batch. |
| `Machine.RunSnoc` | src/main/java/org/tquadrat/foundation/tools/XMLBeautifier.java:338 | One more event is one more callback. |
| `Machine.StackTracksDepth` | src/main/java/org/tquadrat/foundation/tools/XMLBeautifier.java:141-144 | Once the document exists, for events that never close more than they open: the stack keeps its old entries and gains one entry per element opened and not yet closed. |
| `Machine.StackRestored` | src/main/java/org/tquadrat/foundation/tools/XMLBeautifier.java:232-247 | After the root exists, a well-nested run of start/end events leaves the stack exactly as it was, so its length also returns to the old value. |
| `Machine.NearestOpen` | src/main/java/org/tquadrat/foundation/tools/XMLBeautifier.java:235-243 | After a start-element `x` below the root and a well-nested body, whatever came before `x`, the open parent is `x`'s own element. So each new element's parent is the nearest enclosing open element, matching the nesting of the events. |
| `Machine.NearestOpenIsRoot` | src/main/java/org/tquadrat/foundation/tools/XMLBeautifier.java:235-236 | After the root's start-element and a well-nested body, the open parent is the root: elements directly inside the root hang from the document. |
| `Machine.RootNeverPushed` | src/main/java/org/tquadrat/foundation/tools/XMLBeautifier.java:227-231 | Take a root start-element, a well-nested body and the root's end-element. Afterwards the stack is empty, and the root's end-element changes nothing (the no-op branch at line 143). |
| `Machine.ElementCount` | src/main/java/org/tquadrat/foundation/tools/XMLBeautifier.java:227-246 | Every start-element creates exactly one arena element, except the one that creates the document. |
| `Machine.DocumentElementCount` | src/main/java/org/tquadrat/foundation/tools/XMLBeautifier.java:229-237 | From a fresh handler, the root plus the arena hold exactly one element per start-element. |
| `Machine.InstructionsDeferred` | src/main/java/org/tquadrat/foundation/tools/XMLBeautifier.java:186-189 | Before the end of the document, instructions only go to the buffer. The document itself receives none. |
| `Machine.InstructionsAttachedInOrder` | src/main/java/org/tquadrat/foundation/tools/XMLBeautifier.java:132-135 | When the document ends after the events, it carries every instruction of the events in arrival order, including instructions that came before the root. |
| `Beautifier.Handler.constructor` | src/main/java/org/tquadrat/foundation/tools/XMLBeautifier.java:120-123 | A new handler has no document, an empty stack and an empty buffer, and it satisfies the invariant. |
| `Beautifier.Handler.StartElement` | src/main/java/org/tquadrat/foundation/tools/XMLBeautifier.java:224-248 | The fields change exactly as `Machine.Step` does for a start-element, and the invariant holds afterwards. |
| `Beautifier.Handler.EndElement` | src/main/java/org/tquadrat/foundation/tools/XMLBeautifier.java:141-144 | The stack loses its top entry, or stays empty. Nothing else changes, and the invariant holds afterwards. |
| `Beautifier.Handler.ProcessingInstruction` | src/main/java/org/tquadrat/foundation/tools/XMLBeautifier.java:186-189 | The instruction is appended to the buffer, whatever the state. Nothing else changes. |
| `Beautifier.Handler.EndDocument` | src/main/java/org/tquadrat/foundation/tools/XMLBeautifier.java:132-135 | The loop hands each buffered instruction, in order, to the document. Nothing else changes. |
| `Beautifier.Handler.GetOutput` | src/main/java/org/tquadrat/foundation/tools/XMLBeautifier.java:173-180 | The output is empty exactly when no document was created. Otherwise it is the rendering of the document. |
| `Beautifier.Process` | src/main/java/org/tquadrat/foundation/tools/XMLBeautifier.java:329-345 | Feeds the events to a fresh handler. The result is `"<No Output>"` when no event was a start-element. Otherwise it is the rendering of the document that `Machine.Run` builds. |
| `Scenarios.ChildrenOfRootInOrder` | src/main/java/org/tquadrat/foundation/tools/XMLBeautifier.java:224-248 | For `<a x="1"><b/><c/></a>`, root `a` carries `x="1"`, and `b` and `c` are its children in that order. Both are attached through the empty-stack branch, and the stack ends empty. |
| `Scenarios.DeclarationBesideAttribute` | src/main/java/org/tquadrat/foundation/tools/XMLBeautifier.java:201-217 | For `xmlns:p="urn:p" p:id="7"`, the namespace setter receives prefix `p` bound to `urn:p`. The attribute setter receives `p:id="7"` unchanged. |

## Left out

- `main` (command-line handling, reading the file, printing): not part of the handler.
- Creating and running the SAX parser in `process`: the parser is replaced by the event sequence given to `Process`.
- `warning`, `error` and `fatalError`: they only print to the error stream. When the parser aborts with an exception, `process` does not return, and the model has no exceptions.
- The character-data callback: the handler does not override it, so text is ignored. The model has no text event.
- Attributes.Classify: the URI is the raw attribute value. The URI parser `URIStringConverter` and its failure on malformed URIs are not modelled.
- Names.SplitOn: `splitString` belongs to an external library and is modelled as a plain split that keeps empty parts. Its behaviour on empty segments (for example a name ending in `':'`) is not claimed.
- Beautifier.Handler.EndDocument: the source dereferences the document through a bound method reference, which throws when no document exists. The model makes a present document a precondition. `Run` and `Process` therefore require that every end-document event follows a start-element (`Admissible`).
- Beautifier.Handler.GetOutput: serialization (`XMLDocument::toString`) belongs to an external library and is a parameter `render`.
- Beautifier.Handler.StartElement: the library's attribute and namespace setters are modelled as appending to ordered lists of attributes and bindings (see `Attributes.Classify`); what the library does with a repeated attribute name or a repeated prefix is not modelled.
- `RetrieveStringConverter.java` and `ListStringConverters.java` (service-registry lookups that print) and `module-info.java` (module descriptor): no handler logic.
- Resource handling of the input stream: it belongs to the parser and the file I/O, which are not part of this model.
