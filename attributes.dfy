/**
 * The attribute handling of the SAX handler: every raw attribute of a
 * start-element event is either a namespace declaration, sent to the
 * target's namespace setter, or an ordinary attribute, sent to its
 * attribute setter.
 */
module Attributes {
  import opened Wrappers
  import opened Names

  /** One attribute as the parser reports it at one index. */
  datatype RawAttribute = RawAttribute(qName: Option<string>, localName: string, value: string)

  /** A namespace binding; no prefix means the default namespace. */
  datatype Namespace = Namespace(prefix: Option<string>, uri: string)

  /** An ordinary attribute as it is set on an element or a document. */
  datatype Attribute = Attribute(name: string, value: string)

  /** One setter call: the namespace setter or the attribute setter. */
  datatype Setting =
    | NamespaceSetting(binding: Namespace)
    | AttributeSetting(attribute: Attribute)

  /** The name every namespace declaration starts with. */
  const DeclarationKeyword: string := "xmlns"

  predicate IsDeclarationName(name: string) {
    StartsWith(name, DeclarationKeyword)
  }

  function AttributeName(a: RawAttribute): string {
    NameOf(a.qName, a.localName)
  }

  /**
   * Classifies one attribute by its name. A declaration binds the attribute
   * value as URI; its prefix is the second ':'-separated part of the name,
   * or absent when the name has no ':'. Anything else is passed on
   * unchanged.
   */
  function Classify(name: string, value: string): (c: Setting)
    ensures c.NamespaceSetting? <==> IsDeclarationName(name)
    ensures c.NamespaceSetting? ==> c.binding.uri == value
    ensures c.NamespaceSetting? ==> (c.binding.prefix.None? <==> ':' !in name)
    ensures c.NamespaceSetting? && c.binding.prefix.Some? ==> ':' !in c.binding.prefix.value
    ensures c.AttributeSetting? ==> c.attribute == Attribute(name, value)
  {
    if IsDeclarationName(name) then
      var parts := SplitOn(name, ':');
      SingleSegment(name, ':');
      NamespaceSetting(if |parts| == 1 then Namespace(None, value) else Namespace(Some(parts[1]), value))
    else
      AttributeSetting(Attribute(name, value))
  }

  /**
   * A declaration name with a ':' binds the part after the first ':' (up to
   * a further ':', if any) as prefix.
   */
  lemma PrefixedDeclaration(head: string, prefix: string, tail: string, value: string)
    requires IsDeclarationName(head) && ':' !in head && ':' !in prefix
    requires tail == [] || tail[0] == ':'
    ensures Classify(head + [':'] + prefix + tail, value) == NamespaceSetting(Namespace(Some(prefix), value))
  {
    var name := head + [':'] + prefix + tail;
    assert name == head + [':'] + (prefix + tail);
    assert name[..|DeclarationKeyword|] == head[..|DeclarationKeyword|];
    SplitFirstSeparator(head, ':', prefix + tail);
    if tail == [] {
      assert prefix + tail == prefix;
      SplitNoSeparator(prefix, ':');
    } else {
      assert prefix + tail == prefix + [':'] + tail[1..];
      SplitFirstSeparator(prefix, ':', tail[1..]);
    }
  }

  /** The bare keyword declares the default namespace. */
  lemma DefaultDeclaration(value: string)
    ensures Classify(DeclarationKeyword, value) == NamespaceSetting(Namespace(None, value))
  {
    SplitNoSeparator(DeclarationKeyword, ':');
  }

  /** The setter calls for a list of raw attributes, in index order. */
  function Settings(raw: seq<RawAttribute>): (cs: seq<Setting>)
    ensures |cs| == |raw|
    ensures forall i :: 0 <= i < |raw| ==> cs[i] == Classify(AttributeName(raw[i]), raw[i].value)
    decreases |raw|
  {
    if raw == [] then [] else Settings(raw[..|raw| - 1]) + [Classify(AttributeName(raw[|raw| - 1]), raw[|raw| - 1].value)]
  }

  /** The attributes an attribute setter receives, in call order. */
  function Ordinary(cs: seq<Setting>): seq<Attribute>
    decreases |cs|
  {
    if cs == [] then []
    else Ordinary(cs[..|cs| - 1]) + (if cs[|cs| - 1].AttributeSetting? then [cs[|cs| - 1].attribute] else [])
  }

  /** The bindings a namespace setter receives, in call order. */
  function Declarations(cs: seq<Setting>): seq<Namespace>
    decreases |cs|
  {
    if cs == [] then []
    else Declarations(cs[..|cs| - 1]) + (if cs[|cs| - 1].NamespaceSetting? then [cs[|cs| - 1].binding] else [])
  }

  /** Setter calls for consecutive attribute lists follow one another. */
  lemma {:induction false} SettingsAppend(a: seq<RawAttribute>, b: seq<RawAttribute>)
    ensures Settings(a + b) == Settings(a) + Settings(b)
  {
    assert |Settings(a + b)| == |Settings(a) + Settings(b)|;
    forall i | 0 <= i < |a + b|
      ensures Settings(a + b)[i] == (Settings(a) + Settings(b))[i]
    {
      if i >= |a| {
        assert (a + b)[i] == b[i - |a|];
      }
    }
  }

  /** Filtering setter calls respects concatenation, hence call order. */
  lemma {:induction false} SplitAppend(a: seq<Setting>, b: seq<Setting>)
    ensures Ordinary(a + b) == Ordinary(a) + Ordinary(b)
    ensures Declarations(a + b) == Declarations(a) + Declarations(b)
    decreases |b|
  {
    if b == [] {
      assert a + b == a;
    } else {
      var b' := b[..|b| - 1];
      assert (a + b)[..|a + b| - 1] == a + b';
      assert (a + b)[|a + b| - 1] == b[|b| - 1];
      SplitAppend(a, b');
    }
  }

  /** Every setter call goes to exactly one of the two setters. */
  lemma {:induction false} SettingsPartition(cs: seq<Setting>)
    ensures |Ordinary(cs)| + |Declarations(cs)| == |cs|
    decreases |cs|
  {
    if cs != [] {
      SettingsPartition(cs[..|cs| - 1]);
    }
  }

  /** What reaches the attribute setter is exactly the non-declarations. */
  lemma {:induction false} OrdinaryMembers(raw: seq<RawAttribute>, a: Attribute)
    ensures a in Ordinary(Settings(raw)) <==>
      exists i :: 0 <= i < |raw| && !IsDeclarationName(AttributeName(raw[i])) &&
                  a == Attribute(AttributeName(raw[i]), raw[i].value)
    decreases |raw|
  {
    if raw != [] {
      var front := raw[..|raw| - 1];
      var last := |raw| - 1;
      OrdinaryMembers(front, a);
      assert Settings(raw)[..last] == Settings(front);
      if a in Ordinary(Settings(front)) {
        var i :| 0 <= i < |front| && !IsDeclarationName(AttributeName(front[i])) &&
                 a == Attribute(AttributeName(front[i]), front[i].value);
        assert raw[i] == front[i];
      }
      if exists i :: 0 <= i < |raw| && !IsDeclarationName(AttributeName(raw[i])) &&
                     a == Attribute(AttributeName(raw[i]), raw[i].value) {
        var i :| 0 <= i < |raw| && !IsDeclarationName(AttributeName(raw[i])) &&
                 a == Attribute(AttributeName(raw[i]), raw[i].value);
        if i < last {
          assert front[i] == raw[i];
        }
      }
    }
  }

  /**
   * What reaches the namespace setter is exactly one binding per
   * declaration, whose URI is that declaration's value.
   */
  lemma {:induction false} DeclarationMembers(raw: seq<RawAttribute>, ns: Namespace)
    ensures ns in Declarations(Settings(raw)) <==>
      exists i :: 0 <= i < |raw| && IsDeclarationName(AttributeName(raw[i])) &&
                  NamespaceSetting(ns) == Classify(AttributeName(raw[i]), raw[i].value)
    decreases |raw|
  {
    if raw != [] {
      var front := raw[..|raw| - 1];
      var last := |raw| - 1;
      DeclarationMembers(front, ns);
      assert Settings(raw)[..last] == Settings(front);
      if ns in Declarations(Settings(front)) {
        var i :| 0 <= i < |front| && IsDeclarationName(AttributeName(front[i])) &&
                 NamespaceSetting(ns) == Classify(AttributeName(front[i]), front[i].value);
        assert raw[i] == front[i];
      }
      if exists i :: 0 <= i < |raw| && IsDeclarationName(AttributeName(raw[i])) &&
                     NamespaceSetting(ns) == Classify(AttributeName(raw[i]), raw[i].value) {
        var i :| 0 <= i < |raw| && IsDeclarationName(AttributeName(raw[i])) &&
                 NamespaceSetting(ns) == Classify(AttributeName(raw[i]), raw[i].value);
        if i < last {
          assert front[i] == raw[i];
        }
      }
    }
  }

  /**
   * The loop of the handler's attribute helper: visits the attributes at
   * indices 0 .. |raw|-1, each once, and issues one setter call per
   * attribute, returned in call order.
   */
  method SetAttributes(raw: seq<RawAttribute>) returns (calls: seq<Setting>)
    ensures |calls| == |raw|
    ensures forall i :: 0 <= i < |raw| ==> calls[i] == Classify(AttributeName(raw[i]), raw[i].value)
  {
    calls := [];
    var i := 0;
    while i < |raw|
      invariant 0 <= i <= |raw|
      invariant |calls| == i
      invariant forall k :: 0 <= k < i ==> calls[k] == Classify(AttributeName(raw[k]), raw[k].value)
    {
      var name := NameOf(raw[i].qName, raw[i].localName);
      var value := raw[i].value;
      calls := calls + [Classify(name, value)];
      i := i + 1;
    }
  }
}
