/**
 * The handler as a state machine over parse events: the state is the
 * document (absent until the first start-element), the arena of elements
 * below the root, the stack of open elements (handles, top last) and the
 * buffer of processing instructions. Step is one handler callback; Run
 * feeds a sequence of events in order.
 */
module Machine {
  import opened Wrappers
  import opened Names
  import opened Attributes
  import opened Tree

  /** The parser callbacks the handler reacts to. */
  datatype Event =
    | StartElement(qName: Option<string>, localName: string, attributes: seq<RawAttribute>)
    | EndElement
    | ProcessingInstruction(target: string, data: string)
    | EndDocument

  datatype State = State(
    doc: Option<Document>,
    nodes: seq<Element>,
    stack: seq<nat>,
    buffer: seq<Instruction>)

  /** A fresh handler: no document, nothing open, nothing buffered. */
  function Init(): State {
    State(None, [], [], [])
  }

  predicate StackInRange(s: State) {
    forall k :: 0 <= k < |s.stack| ==> s.stack[k] < |s.nodes|
  }

  /** Where a new element goes: below the open element on top of the stack, else below the root. */
  function OpenParent(s: State): (p: Parent)
    requires StackInRange(s)
    ensures p.Node? ==> p.index < |s.nodes|
  {
    if s.stack == [] then Root else Node(s.stack[|s.stack| - 1])
  }

  /** Parent links point to earlier handles, so they cannot form a cycle. */
  ghost predicate ParentsPrecede(nodes: seq<Element>) {
    forall i :: 0 <= i < |nodes| && nodes[i].parent.Node? ==> nodes[i].parent.index < i
  }

  /** Every child list holds exactly its element's children, in creation order. */
  ghost predicate ChildListsExact(rootChildren: seq<nat>, nodes: seq<Element>) {
    && rootChildren == ChildIndices(nodes, Root, |nodes|)
    && forall j :: 0 <= j < |nodes| ==> nodes[j].children == ChildIndices(nodes, Node(j), |nodes|)
  }

  /**
   * The stack, read bottom to top, is a chain of open elements hanging below
   * the root, each the parent of the next.
   */
  ghost predicate StackIsChain(nodes: seq<Element>, stack: seq<nat>) {
    && (forall k :: 0 <= k < |stack| ==> stack[k] < |nodes|)
    && (stack != [] ==> nodes[stack[0]].parent == Root)
    && (forall k :: 0 < k < |stack| ==> nodes[stack[k]].parent == Node(stack[k - 1]))
  }

  /** The invariant of the handler's state. */
  ghost predicate Wellformed(s: State) {
    && (s.doc.None? ==> s.nodes == [] && s.stack == [])
    && ParentsPrecede(s.nodes)
    && (s.doc.Some? ==> ChildListsExact(s.doc.value.children, s.nodes))
    && StackIsChain(s.nodes, s.stack)
  }

  /** Creates the element for a start-element event and links it under OpenParent(s). */
  function Attach(s: State, element: Element): (r: State)
    requires StackInRange(s) && s.doc.Some? && element.parent == OpenParent(s)
    ensures |r.nodes| == |s.nodes| + 1 && r.nodes[|s.nodes|] == element
    ensures r.stack == s.stack + [|s.nodes|] && r.buffer == s.buffer
    ensures r.doc.Some? && r.doc.value.(children := s.doc.value.children) == s.doc.value
    ensures r.doc.value.children == s.doc.value.children + (if element.parent == Root then [|s.nodes|] else [])
    ensures forall i :: 0 <= i < |s.nodes| ==> r.nodes[i].(children := s.nodes[i].children) == s.nodes[i]
    ensures forall i :: 0 <= i < |s.nodes| ==>
      r.nodes[i].children == s.nodes[i].children + (if element.parent == Node(i) then [|s.nodes|] else [])
  {
    var n := |s.nodes|;
    match element.parent
    case Root =>
      s.(doc := Some(s.doc.value.(children := s.doc.value.children + [n])),
         nodes := s.nodes + [element], stack := s.stack + [n])
    case Node(p) =>
      s.(nodes := s.nodes[p := s.nodes[p].(children := s.nodes[p].children + [n])] + [element],
         stack := s.stack + [n])
  }

  /** One handler callback. */
  function Step(s: State, e: Event): (r: State)
    requires StackInRange(s)
    requires e.EndDocument? ==> s.doc.Some?
    ensures StackInRange(r)
    ensures r.doc.Some? <==> s.doc.Some? || e.StartElement?
    // every instruction is buffered, whatever the state
    ensures r.buffer == s.buffer + (if e.ProcessingInstruction? then [Instruction(e.target, e.data)] else [])
    // the first start-element creates the document and leaves arena and stack alone
    ensures e.StartElement? && s.doc.None? ==>
      var cs := Settings(e.attributes);
      && r.doc == Some(Document(NameOf(e.qName, e.localName), Ordinary(cs), Declarations(cs), [], []))
      && r.nodes == s.nodes && r.stack == s.stack
    // every later one creates one element below OpenParent(s) and pushes it
    ensures e.StartElement? && s.doc.Some? ==>
      var n := |s.nodes|;
      var cs := Settings(e.attributes);
      && |r.nodes| == n + 1
      && r.nodes[n] == Element(NameOf(e.qName, e.localName), Ordinary(cs), Declarations(cs), OpenParent(s), [])
      && r.stack == s.stack + [n]
      && r.doc.Some?
      && r.doc.value.(children := s.doc.value.children) == s.doc.value
      && r.doc.value.children == s.doc.value.children + (if OpenParent(s) == Root then [n] else [])
      && (forall i :: 0 <= i < n ==> r.nodes[i].(children := s.nodes[i].children) == s.nodes[i])
      && (forall i :: 0 <= i < n ==>
            r.nodes[i].children == s.nodes[i].children + (if OpenParent(s) == Node(i) then [n] else []))
    // an end-element pops one open element, or does nothing when none is open
    ensures e.EndElement? ==>
      r == s.(stack := if s.stack == [] then [] else s.stack[..|s.stack| - 1])
    ensures e.ProcessingInstruction? ==> r.doc == s.doc && r.nodes == s.nodes && r.stack == s.stack
    // the end of the document attaches the whole buffer, in order
    ensures e.EndDocument? ==>
      r == s.(doc := Some(s.doc.value.(instructions := s.doc.value.instructions + s.buffer)))
  {
    match e
    case StartElement(qName, localName, attributes) =>
      var name := NameOf(qName, localName);
      var cs := Settings(attributes);
      if s.doc.None? then
        s.(doc := Some(Document(name, Ordinary(cs), Declarations(cs), [], [])))
      else
        Attach(s, Element(name, Ordinary(cs), Declarations(cs), OpenParent(s), []))
    case EndElement =>
      if s.stack == [] then s else s.(stack := s.stack[..|s.stack| - 1])
    case ProcessingInstruction(target, data) =>
      s.(buffer := s.buffer + [Instruction(target, data)])
    case EndDocument =>
      s.(doc := Some(s.doc.value.(instructions := s.doc.value.instructions + s.buffer)))
  }

  lemma InitWellformed()
    ensures Wellformed(Init())
  {
  }

  /** Linking a new childless element under OpenParent(s) keeps the tree consistent. */
  lemma AttachPreservesWellformed(s: State, element: Element)
    requires Wellformed(s) && s.doc.Some?
    requires element.parent == OpenParent(s) && element.children == []
    ensures Wellformed(Attach(s, element))
  {
    var r := Attach(s, element);
    var n := |s.nodes|;
    forall i | 0 <= i < n
      ensures r.nodes[i].parent == s.nodes[i].parent
    {
      assert r.nodes[i].(children := s.nodes[i].children) == s.nodes[i];
    }
    assert ParentsPrecede(r.nodes);
    AddChildKeepsListsExact(s.doc.value.children, s.nodes, r.doc.value.children, r.nodes);
    PushKeepsChain(s.nodes, s.stack, r.nodes);
  }

  /** Appending a childless element to the arena and to its parent's child list keeps the lists exact. */
  lemma AddChildKeepsListsExact(rootChildren: seq<nat>, nodes: seq<Element>, rootChildren': seq<nat>, nodes': seq<Element>)
    requires ChildListsExact(rootChildren, nodes)
    requires |nodes'| == |nodes| + 1
    requires forall i :: 0 <= i < |nodes| ==> nodes'[i].parent == nodes[i].parent
    requires nodes'[|nodes|].children == []
    requires nodes'[|nodes|].parent.Node? ==> nodes'[|nodes|].parent.index < |nodes|
    requires forall i :: 0 <= i < |nodes| && nodes[i].parent.Node? ==> nodes[i].parent.index < i
    requires rootChildren' == rootChildren + (if nodes'[|nodes|].parent == Root then [|nodes|] else [])
    requires forall i :: 0 <= i < |nodes| ==>
      nodes'[i].children == nodes[i].children + (if nodes'[|nodes|].parent == Node(i) then [|nodes|] else [])
    ensures ChildListsExact(rootChildren', nodes')
  {
    var n := |nodes|;
    ChildListGrows(nodes, nodes', Root);
    assert rootChildren' == ChildIndices(nodes', Root, n + 1);
    forall j | 0 <= j < n + 1
      ensures nodes'[j].children == ChildIndices(nodes', Node(j), n + 1)
    {
      if j < n {
        ChildListGrows(nodes, nodes', Node(j));
        assert nodes[j].children == ChildIndices(nodes, Node(j), n);
      } else {
        forall i | 0 <= i < n + 1
          ensures nodes'[i].parent != Node(n)
        {
          if i < n {
            assert nodes'[i].parent == nodes[i].parent;
          }
        }
        NoChildIndices(nodes', Node(n), n + 1);
      }
    }
  }

  /** Adding one element at the end of the arena extends at most its parent's child list. */
  lemma ChildListGrows(nodes: seq<Element>, nodes': seq<Element>, q: Parent)
    requires |nodes'| == |nodes| + 1
    requires forall i :: 0 <= i < |nodes| ==> nodes'[i].parent == nodes[i].parent
    ensures ChildIndices(nodes', q, |nodes'|) ==
      ChildIndices(nodes, q, |nodes|) + (if nodes'[|nodes|].parent == q then [|nodes|] else [])
  {
    ChildIndicesFrame(nodes', nodes, q, |nodes|);
  }

  /** Pushing a new element whose parent is the old top keeps the stack a chain. */
  lemma PushKeepsChain(nodes: seq<Element>, stack: seq<nat>, nodes': seq<Element>)
    requires StackIsChain(nodes, stack)
    requires |nodes'| == |nodes| + 1
    requires forall i :: 0 <= i < |nodes| ==> nodes'[i].parent == nodes[i].parent
    requires nodes'[|nodes|].parent == (if stack == [] then Root else Node(stack[|stack| - 1]))
    ensures StackIsChain(nodes', stack + [|nodes|])
  {
    var stack' := stack + [|nodes|];
    forall k | 0 < k < |stack'|
      ensures nodes'[stack'[k]].parent == Node(stack'[k - 1])
    {
      assert stack'[k - 1] == stack[k - 1];
      if k < |stack| {
        assert stack'[k] == stack[k];
      }
    }
  }

  /** Popping the top keeps the stack a chain. */
  lemma PopKeepsChain(nodes: seq<Element>, stack: seq<nat>)
    requires StackIsChain(nodes, stack) && stack != []
    ensures StackIsChain(nodes, stack[..|stack| - 1])
  {
    var stack' := stack[..|stack| - 1];
    forall k | 0 < k < |stack'|
      ensures nodes[stack'[k]].parent == Node(stack'[k - 1])
    {
      assert stack'[k] == stack[k] && stack'[k - 1] == stack[k - 1];
    }
  }

  /** Every callback keeps the tree and the stack of open elements consistent. */
  lemma StepPreservesWellformed(s: State, e: Event)
    requires Wellformed(s)
    requires e.EndDocument? ==> s.doc.Some?
    ensures Wellformed(Step(s, e))
  {
    match e
    case StartElement(qName, localName, attributes) =>
      if s.doc.Some? {
        var cs := Settings(attributes);
        AttachPreservesWellformed(s, Element(NameOf(qName, localName), Ordinary(cs), Declarations(cs), OpenParent(s), []));
      }
    case EndElement =>
      if s.stack != [] {
        var stack := s.stack[..|s.stack| - 1];
        assert Step(s, e) == s.(stack := stack);
        PopKeepsChain(s.nodes, s.stack);
      }
    case ProcessingInstruction(_, _) =>
    case EndDocument =>
  }

  /** Some event of `es` is a start-element. */
  predicate HasStart(es: seq<Event>)
    decreases |es|
  {
    es != [] && (es[|es| - 1].StartElement? || HasStart(es[..|es| - 1]))
  }

  /**
   * The events a parser may deliver to the handler without it failing:
   * an end-document event needs the document, so it must follow a
   * start-element unless the document already exists.
   */
  predicate Admissible(hasDoc: bool, es: seq<Event>) {
    forall i :: 0 <= i < |es| && es[i].EndDocument? ==> hasDoc || HasStart(es[..i])
  }

  /** The processing instructions among the events, in order. */
  function Instructions(es: seq<Event>): seq<Instruction>
    decreases |es|
  {
    if es == [] then []
    else
      var e := es[|es| - 1];
      Instructions(es[..|es| - 1]) + (if e.ProcessingInstruction? then [Instruction(e.target, e.data)] else [])
  }

  /** Feeds the events to the handler in order. */
  function Run(s: State, es: seq<Event>): (r: State)
    requires StackInRange(s)
    requires Admissible(s.doc.Some?, es)
    ensures StackInRange(r)
    ensures r.doc.Some? <==> s.doc.Some? || HasStart(es)
    ensures r.buffer == s.buffer + Instructions(es)
    decreases |es|
  {
    if es == [] then s
    else
      var front := es[..|es| - 1];
      assert forall i :: 0 <= i < |front| ==> front[i] == es[i] && front[..i] == es[..i];
      Step(Run(s, front), es[|es| - 1])
  }

  /** Every prefix of deliverable events is deliverable. */
  lemma AdmissiblePrefix(hasDoc: bool, es: seq<Event>, n: nat)
    requires Admissible(hasDoc, es) && n <= |es|
    ensures Admissible(hasDoc, es[..n])
  {
    assert forall i :: 0 <= i < n ==> es[..n][i] == es[i] && es[..n][..i] == es[..i];
  }

  /** Running one event further is one more step. */
  lemma RunExtend(s: State, es: seq<Event>, i: nat)
    requires StackInRange(s) && Admissible(s.doc.Some?, es) && i < |es|
    ensures Admissible(s.doc.Some?, es[..i]) && Admissible(s.doc.Some?, es[..i + 1])
    ensures es[i].EndDocument? ==> Run(s, es[..i]).doc.Some?
    ensures Run(s, es[..i + 1]) == Step(Run(s, es[..i]), es[i])
  {
    AdmissiblePrefix(s.doc.Some?, es, i);
    AdmissiblePrefix(s.doc.Some?, es, i + 1);
    assert es[..i + 1][..i] == es[..i];
  }

  /** Running one more event is one more step. */
  lemma RunSnoc(s: State, es: seq<Event>, e: Event)
    requires StackInRange(s) && Admissible(s.doc.Some?, es)
    requires e.EndDocument? ==> s.doc.Some? || HasStart(es)
    ensures Admissible(s.doc.Some?, es + [e])
    ensures Run(s, es + [e]) == Step(Run(s, es), e)
  {
    var all := es + [e];
    assert all[..|es|] == es;
    assert forall i :: 0 <= i < |es| ==> all[i] == es[i] && all[..i] == es[..i];
  }

  lemma {:induction false} RunPreservesWellformed(s: State, es: seq<Event>)
    requires Wellformed(s)
    requires Admissible(s.doc.Some?, es)
    ensures Wellformed(Run(s, es))
    decreases |es|
  {
    if es != [] {
      var front := es[..|es| - 1];
      assert forall i :: 0 <= i < |front| ==> front[i] == es[i] && front[..i] == es[..i];
      RunPreservesWellformed(s, front);
      StepPreservesWellformed(Run(s, front), es[|es| - 1]);
    }
  }

  predicate NoEndDocument(es: seq<Event>) {
    forall i :: 0 <= i < |es| ==> !es[i].EndDocument?
  }

  /** A concatenation holds a start-element exactly when one of its parts does. */
  lemma {:induction false} HasStartAppend(a: seq<Event>, b: seq<Event>)
    ensures HasStart(a + b) <==> HasStart(a) || HasStart(b)
    decreases |b|
  {
    if b == [] {
      assert a + b == a;
    } else {
      var front := b[..|b| - 1];
      assert (a + b)[..|a + b| - 1] == a + front;
      assert (a + b)[|a + b| - 1] == b[|b| - 1];
      HasStartAppend(a, front);
    }
  }

  /**
   * Feeding two batches of events one after the other is feeding their
   * concatenation; the second batch may end the document once the first
   * has created it.
   */
  lemma {:induction false} RunAppend(s: State, a: seq<Event>, b: seq<Event>)
    requires StackInRange(s)
    requires Admissible(s.doc.Some?, a) && Admissible(s.doc.Some? || HasStart(a), b)
    ensures Admissible(s.doc.Some?, a + b)
    ensures Run(s, a + b) == Run(Run(s, a), b)
    decreases |b|
  {
    forall i | 0 <= i < |a + b| && (a + b)[i].EndDocument?
      ensures s.doc.Some? || HasStart((a + b)[..i])
    {
      if i < |a| {
        assert (a + b)[..i] == a[..i];
      } else {
        assert (a + b)[..i] == a + b[..i - |a|];
        assert b[i - |a|] == (a + b)[i];
        HasStartAppend(a, b[..i - |a|]);
      }
    }
    if b == [] {
      assert a + b == a;
    } else {
      var front := b[..|b| - 1];
      AdmissiblePrefix(s.doc.Some? || HasStart(a), b, |b| - 1);
      assert (a + b)[..|a + b| - 1] == a + front;
      assert (a + b)[|a + b| - 1] == b[|b| - 1];
      RunAppend(s, a, front);
    }
  }

  /** Nesting depth after the events: start-elements open, end-elements close. */
  function Depth(es: seq<Event>): int
    decreases |es|
  {
    if es == [] then 0
    else Depth(es[..|es| - 1]) + (match es[|es| - 1]
                                  case StartElement(_, _, _) => 1
                                  case EndElement => -1
                                  case _ => 0)
  }

  /** No prefix of the events closes more elements than it opens. */
  predicate NeverNegative(es: seq<Event>)
    decreases |es|
  {
    es == [] || (NeverNegative(es[..|es| - 1]) && Depth(es) >= 0)
  }

  /** Every end-element closes an element the same events opened. */
  predicate WellNested(es: seq<Event>) {
    NeverNegative(es) && Depth(es) == 0
  }

  /**
   * Once the document exists, the stack holds its old entries plus one
   * entry per element the events opened and have not yet closed.
   */
  lemma {:induction false} StackTracksDepth(s: State, es: seq<Event>)
    requires StackInRange(s) && s.doc.Some? && NeverNegative(es)
    ensures |Run(s, es).stack| == |s.stack| + Depth(es)
    ensures Run(s, es).stack[..|s.stack|] == s.stack
    decreases |es|
  {
    if es != [] {
      var front := es[..|es| - 1];
      assert forall i :: 0 <= i < |front| ==> front[i] == es[i] && front[..i] == es[..i];
      StackTracksDepth(s, front);
      var t := Run(s, front);
      var r := Run(s, es);
      assert r == Step(t, es[|es| - 1]);
      match es[|es| - 1]
      case StartElement(_, _, _) =>
        assert (t.stack + [|t.nodes|])[..|s.stack|] == t.stack[..|s.stack|];
      case EndElement =>
        assert |t.stack| >= |s.stack| + 1;
        assert t.stack[..|t.stack| - 1][..|s.stack|] == t.stack[..|s.stack|];
      case ProcessingInstruction(_, _) =>
      case EndDocument =>
    }
  }

  /**
   * After the root exists, a well-nested run of events leaves the stack of
   * open elements exactly as it found it.
   */
  lemma StackRestored(s: State, es: seq<Event>)
    requires StackInRange(s) && s.doc.Some? && WellNested(es)
    ensures Run(s, es).stack == s.stack
  {
    StackTracksDepth(s, es);
  }

  /**
   * Each new element's parent is the nearest enclosing open element: after
   * a start-element `x` and a well-nested body, the open parent is `x`'s
   * own element, whatever came before `x`.
   */
  lemma NearestOpen(s: State, pre: seq<Event>, x: Event, body: seq<Event>)
    requires StackInRange(s) && s.doc.Some? && x.StartElement? && WellNested(body)
    ensures Admissible(true, pre + [x] + body)
    ensures OpenParent(Run(s, pre + [x] + body)) == Node(|Run(s, pre).nodes|)
  {
    RunSnoc(s, pre, x);
    RunAppend(s, pre + [x], body);
    StackRestored(Run(s, pre + [x]), body);
  }

  /**
   * Inside the root, with no other element open, the open parent is the
   * root itself: elements directly below the root hang from the document.
   */
  lemma NearestOpenIsRoot(root: Event, body: seq<Event>)
    requires root.StartElement? && WellNested(body)
    ensures Admissible(false, [root] + body)
    ensures OpenParent(Run(Init(), [root] + body)) == Root
  {
    var started := Run(Init(), [root]);
    assert [root][..0] == [];
    assert Run(Init(), []) == Init();
    assert started == Step(Init(), root);
    assert HasStart([root]);
    RunAppend(Init(), [root], body);
    StackRestored(started, body);
  }

  /**
   * The root element is never pushed: after its start-element, a
   * well-nested body and its end-element, nothing is open, and the root's
   * end-element changes nothing.
   */
  lemma RootNeverPushed(root: Event, body: seq<Event>)
    requires root.StartElement? && WellNested(body)
    ensures Admissible(false, [root] + body) && Admissible(false, [root] + body + [EndElement])
    ensures Run(Init(), [root] + body + [EndElement]).stack == []
    ensures Run(Init(), [root] + body + [EndElement]) == Run(Init(), [root] + body)
  {
    NearestOpenIsRoot(root, body);
    RunSnoc(Init(), [root] + body, EndElement);
  }

  function CountStarts(es: seq<Event>): nat
    decreases |es|
  {
    if es == [] then 0
    else CountStarts(es[..|es| - 1]) + (if es[|es| - 1].StartElement? then 1 else 0)
  }

  /**
   * Every start-element creates exactly one element, except the one that
   * creates the document, whose element is the root.
   */
  lemma {:induction false} ElementCount(s: State, es: seq<Event>)
    requires StackInRange(s)
    requires Admissible(s.doc.Some?, es)
    ensures |Run(s, es).nodes| == |s.nodes| + CountStarts(es) - (if s.doc.None? && HasStart(es) then 1 else 0)
    decreases |es|
  {
    if es != [] {
      var front := es[..|es| - 1];
      assert forall i :: 0 <= i < |front| ==> front[i] == es[i] && front[..i] == es[..i];
      ElementCount(s, front);
    }
  }

  /** From a fresh handler: the root plus the arena hold one element per start-element. */
  lemma DocumentElementCount(es: seq<Event>)
    requires Admissible(false, es) && HasStart(es)
    ensures 1 + |Run(Init(), es).nodes| == CountStarts(es)
  {
    ElementCount(Init(), es);
  }

  /** Until the end of the document, the document holds no instructions. */
  lemma {:induction false} InstructionsDeferred(s: State, es: seq<Event>)
    requires StackInRange(s)
    requires NoEndDocument(es)
    ensures Admissible(s.doc.Some?, es)
    ensures Run(s, es).doc.Some? ==>
      Run(s, es).doc.value.instructions == (if s.doc.Some? then s.doc.value.instructions else [])
    decreases |es|
  {
    if es != [] {
      var front := es[..|es| - 1];
      assert forall i :: 0 <= i < |front| ==> front[i] == es[i];
      InstructionsDeferred(s, front);
    }
  }

  /**
   * When the document ends after the events, the document carries every
   * processing instruction of the events, including those before the root,
   * in arrival order.
   */
  lemma InstructionsAttachedInOrder(es: seq<Event>)
    requires HasStart(es) && NoEndDocument(es)
    ensures Admissible(false, es + [EndDocument])
    ensures Run(Init(), es + [EndDocument]).doc.Some?
    ensures Run(Init(), es + [EndDocument]).doc.value.instructions == Instructions(es)
  {
    var all := es + [EndDocument];
    assert all[..|all| - 1] == es;
    InstructionsDeferred(Init(), es);
    assert forall i :: 0 <= i < |es| ==> all[i] == es[i];
  }
}
