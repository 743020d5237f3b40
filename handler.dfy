/**
 * The SAX handler of the XML beautifier as an object whose callbacks update
 * its fields in place, and the driver that feeds it the parser's events and
 * turns the result into text.
 */
module Beautifier {
  import opened Wrappers
  import opened Names
  import opened Attributes
  import opened Tree
  import opened Machine

  /** What the beautifier returns when the parse produced no document. */
  const NoOutput: string := "<No Output>"

  class Handler {
    /** The output document; absent until the first start-element. */
    var document: Option<Document>
    /** The elements below the root, by handle. */
    var elements: seq<Element>
    /** The handles of the open elements, top last. The root is never on it. */
    var stack: seq<nat>
    /** The processing instructions received so far, in arrival order. */
    var instructions: seq<Instruction>

    function Current(): State
      reads this
    {
      State(document, elements, stack, instructions)
    }

    ghost predicate Valid()
      reads this
    {
      Wellformed(Current())
    }

    constructor ()
      ensures Valid() && Current() == Init()
    {
      document := None;
      elements := [];
      stack := [];
      instructions := [];
    }

    /**
     * The first start-element creates the document, named after the element
     * and given its attributes; every later one creates an element below the
     * open element on top of the stack (below the root when none is open)
     * and pushes it.
     */
    method StartElement(qName: Option<string>, localName: string, attributes: seq<RawAttribute>)
      requires Valid()
      modifies this
      ensures Valid()
      ensures Current() == Step(old(Current()), Event.StartElement(qName, localName, attributes))
    {
      ghost var before := Current();
      ghost var event := Event.StartElement(qName, localName, attributes);
      var name := NameOf(qName, localName);
      var calls := SetAttributes(attributes);
      assert calls == Settings(attributes);
      if document.None? {
        document := Some(Document(name, Ordinary(calls), Declarations(calls), [], []));
      } else {
        var handle := |elements|;
        if stack == [] {
          var element := Element(name, Ordinary(calls), Declarations(calls), Root, []);
          document := Some(document.value.(children := document.value.children + [handle]));
          elements := elements + [element];
          stack := stack + [handle];
          assert Current() == Attach(before, element);
        } else {
          var parent := stack[|stack| - 1];
          var element := Element(name, Ordinary(calls), Declarations(calls), Node(parent), []);
          elements := elements[parent := elements[parent].(children := elements[parent].children + [handle])] + [element];
          stack := stack + [handle];
          assert Current() == Attach(before, element);
        }
      }
      assert Current() == Step(before, event);
      StepPreservesWellformed(before, event);
    }

    /** Closes the innermost open element; does nothing when none is open. */
    method EndElement()
      requires Valid()
      modifies this
      ensures Valid()
      ensures Current() == Step(old(Current()), Event.EndElement)
    {
      if stack != [] {
        stack := stack[..|stack| - 1];
      }
      StepPreservesWellformed(old(Current()), Event.EndElement);
    }

    /** Buffers the instruction, whatever the state. */
    method ProcessingInstruction(target: string, data: string)
      requires Valid()
      modifies this
      ensures Valid()
      ensures Current() == Step(old(Current()), Event.ProcessingInstruction(target, data))
    {
      instructions := instructions + [Instruction(target, data)];
      StepPreservesWellformed(old(Current()), Event.ProcessingInstruction(target, data));
    }

    /** Hands every buffered instruction, in order, to the document. */
    method EndDocument()
      requires Valid() && document.Some?
      modifies this
      ensures Valid()
      ensures Current() == Step(old(Current()), Event.EndDocument)
    {
      var i := 0;
      assert old(document.value.instructions) + instructions[..0] == old(document.value.instructions);
      while i < |instructions|
        invariant 0 <= i <= |instructions|
        invariant elements == old(elements) && stack == old(stack) && instructions == old(instructions)
        invariant document == Some(old(document.value).(instructions := old(document.value.instructions) + instructions[..i]))
      {
        assert instructions[..i + 1] == instructions[..i] + [instructions[i]];
        assert old(document.value.instructions) + instructions[..i + 1] ==
          (old(document.value.instructions) + instructions[..i]) + [instructions[i]];
        document := Some(document.value.(instructions := document.value.instructions + [instructions[i]]));
        i := i + 1;
      }
      assert instructions[..i] == instructions;
      StepPreservesWellformed(old(Current()), Event.EndDocument);
    }

    /** The rendered document, or nothing when no document was created. */
    function GetOutput(render: (Document, seq<Element>) -> string): (output: Option<string>)
      reads this
      ensures output.None? <==> document.None?
      ensures output.Some? ==> output.value == render(document.value, elements)
    {
      if document.None? then None else Some(render(document.value, elements))
    }
  }

  /**
   * Feeds the parser's events to a fresh handler, in order, and returns the
   * rendered document, or NoOutput when the events held no element.
   */
  method Process(events: seq<Event>, render: (Document, seq<Element>) -> string) returns (text: string)
    requires Admissible(false, events)
    ensures !HasStart(events) ==> text == NoOutput
    ensures HasStart(events) ==>
      Run(Init(), events).doc.Some? && text == render(Run(Init(), events).doc.value, Run(Init(), events).nodes)
  {
    var handler := new Handler();
    var i := 0;
    while i < |events|
      invariant 0 <= i <= |events|
      invariant handler.Valid()
      invariant Admissible(false, events[..i])
      invariant handler.Current() == Run(Init(), events[..i])
    {
      AdmissiblePrefix(false, events, i + 1);
      RunExtend(Init(), events, i);
      match events[i] {
        case StartElement(qName, localName, attributes) =>
          handler.StartElement(qName, localName, attributes);
        case EndElement =>
          handler.EndElement();
        case ProcessingInstruction(target, data) =>
          handler.ProcessingInstruction(target, data);
        case EndDocument =>
          handler.EndDocument();
      }
      i := i + 1;
    }
    assert events[..i] == events;
    var output := handler.GetOutput(render);
    text := output.GetOr(NoOutput);
  }
}
