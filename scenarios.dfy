/**
 * A worked event stream: what the handler builds for a small document.
 */
module Scenarios {
  import opened Wrappers
  import opened Names
  import opened Attributes
  import opened Tree
  import opened Machine

  const OpenA: Event := StartElement(Some("a"), "a", [RawAttribute(Some("x"), "x", "1")])
  const OpenB: Event := StartElement(Some("b"), "b", [])
  const OpenC: Event := StartElement(None, "c", [])

  /** The events a parser delivers for `<a x="1"><b/>`. */
  function FirstChild(): seq<Event> {
    [OpenA] + [OpenB] + [EndElement]
  }

  /** The events a parser delivers for `<a x="1"><b/><c/></a>`. */
  function TwoChildren(): seq<Event> {
    FirstChild() + [OpenC] + [EndElement] + [EndElement] + [EndDocument]
  }

  /** The document created by the root start tag of `TwoChildren`. */
  function RootOf(children: seq<nat>): Document {
    Document("a", [Attribute("x", "1")], [], children, [])
  }

  const ElementB: Element := Element("b", [], [], Root, [])
  const ElementC: Element := Element("c", [], [], Root, [])

  /** The root's only attribute reaches the attribute setter. */
  lemma RootAttributes()
    ensures Settings([RawAttribute(Some("x"), "x", "1")]) == [AttributeSetting(Attribute("x", "1"))]
  {
    var raw := [RawAttribute(Some("x"), "x", "1")];
    assert !IsDeclarationName("x");
    assert raw[..0] == [];
  }

  /** The root start tag creates the document and nothing else. */
  lemma OpenRoot()
    ensures Step(Init(), OpenA) == State(Some(RootOf([])), [], [], [])
  {
    RootAttributes();
    var cs := [AttributeSetting(Attribute("x", "1"))];
    assert cs[..0] == [];
    assert Ordinary(cs) == [Attribute("x", "1")] && Declarations(cs) == [];
  }

  /** `b` is attached below the root through the empty-stack branch. */
  lemma OpenFirstChild()
    ensures Step(State(Some(RootOf([])), [], [], []), OpenB) == State(Some(RootOf([0])), [ElementB], [0], [])
  {
    var s := State(Some(RootOf([])), [], [], []);
    assert Settings([]) == [] && Ordinary([]) == [] && Declarations([]) == [];
    assert OpenParent(s) == Root;
    var r := Step(s, OpenB);
    assert r == Attach(s, ElementB);
    assert r.nodes == [ElementB] && r.stack == [0] && r.buffer == [];
    assert r.doc == Some(RootOf([0]));
  }

  /** After `b` closes, `c` is attached below the root as well, after `b`. */
  lemma OpenSecondChild()
    ensures Step(State(Some(RootOf([0])), [ElementB], [], []), OpenC) ==
      State(Some(RootOf([0, 1])), [ElementB, ElementC], [1], [])
  {
    var s := State(Some(RootOf([0])), [ElementB], [], []);
    assert Settings([]) == [] && Ordinary([]) == [] && Declarations([]) == [];
    assert OpenParent(s) == Root;
    var r := Step(s, OpenC);
    assert r == Attach(s, ElementC);
    assert r.nodes == [ElementB, ElementC] && r.stack == [1] && r.buffer == [];
    assert r.doc.value.children == [0] + [1] == [0, 1];
    assert r.doc == Some(RootOf([0, 1]));
  }

  /** After `<a x="1"><b/>` the document holds `b` and no element is open. */
  lemma FirstChildClosed()
    ensures Admissible(false, FirstChild())
    ensures Run(Init(), FirstChild()) == State(Some(RootOf([0])), [ElementB], [], [])
  {
    var p1 := [OpenA];
    var p2 := p1 + [OpenB];
    var p3 := p2 + [EndElement];
    assert Run(Init(), []) == Init();
    RunSnoc(Init(), [], OpenA);
    assert [] + [OpenA] == p1;
    OpenRoot();
    RunSnoc(Init(), p1, OpenB);
    OpenFirstChild();
    RunSnoc(Init(), p2, EndElement);
  }

  /**
   * For `<a x="1"><b/><c/></a>` the root `a` carries the attribute; `b` and
   * `c` hang directly below the root, attached while the stack is empty, in
   * document order; the root's end tag finds the stack empty.
   */
  lemma ChildrenOfRootInOrder()
    ensures Admissible(false, TwoChildren())
    ensures Run(Init(), TwoChildren()) ==
      State(Some(RootOf([0, 1])), [ElementB, ElementC], [], [])
  {
    var p3 := FirstChild();
    var p4 := p3 + [OpenC];
    var p5 := p4 + [EndElement];
    var p6 := p5 + [EndElement];
    FirstChildClosed();
    RunSnoc(Init(), p3, OpenC);
    OpenSecondChild();
    RunSnoc(Init(), p4, EndElement);
    RunSnoc(Init(), p5, EndElement);
    RunSnoc(Init(), p6, EndDocument);
    assert HasStart([OpenA]);
  }

  /**
   * The attributes of `<root xmlns:p="urn:p" p:id="7"/>`: the declaration
   * reaches the namespace setter as prefix `p` bound to `urn:p`; `p:id`,
   * though prefixed, is an ordinary attribute and keeps its qualified name.
   */
  lemma DeclarationBesideAttribute()
    ensures
      var cs := Settings([RawAttribute(Some("xmlns:p"), "p", "urn:p"), RawAttribute(Some("p:id"), "id", "7")]);
      && Declarations(cs) == [Namespace(Some("p"), "urn:p")]
      && Ordinary(cs) == [Attribute("p:id", "7")]
  {
    var raw := [RawAttribute(Some("xmlns:p"), "p", "urn:p"), RawAttribute(Some("p:id"), "id", "7")];
    PrefixedDeclaration("xmlns", "p", [], "urn:p");
    assert "xmlns" + [':'] + "p" + [] == "xmlns:p";
    assert !IsDeclarationName("p:id");
    var cs := [NamespaceSetting(Namespace(Some("p"), "urn:p")), AttributeSetting(Attribute("p:id", "7"))];
    assert Settings(raw) == cs;
    assert cs[..1] == [cs[0]] && [cs[0]][..0] == [];
  }
}
