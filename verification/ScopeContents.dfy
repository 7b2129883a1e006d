/**
 * What is in a scope when elaboration has ended, in terms of its source text: module instances, the scopes of tasks,
 * functions and blocks, and generate blocks.
 */
module ScopeContents {
  import opened Options
  import opened ScopePaths
  import opened ScopeTree
  import HName

  /** There is a scope of this name, type and text in p. */
  ghost predicate HasChild(created: set<NetScope>, p: NetScope, name: HName.Key, kind: Kind, text: seq<Item>) {
    exists s :: s in created && s.parent == p && s.name == name && s.kind == kind && s.text == text
  }

  // ------------------------------------------------------------- instances

  /** The text of p has an instance of module m with this name. An array has one for each index of its range. */
  ghost predicate Instantiates(src: Source, p: NetScope, m: Name, name: HName.Key) {
    || (Instance(m, name.text, 0) in p.text && name.numbers == [])
    || (Instance(m, name.text, 1) in p.text && |name.numbers| == 1
        && Within(src.choices.range(p, name.text), name.numbers[0]))
  }

  /** The instances in p are those in its text, except for unknown modules and refused recursions. */
  ghost predicate ModulesIn(src: Source, created: set<NetScope>, p: NetScope) {
    forall m, name, text ::
      HasChild(created, p, name, Module(m), text) <==>
      m in src.library && text == src.library[m] && Accepted(src.limit, m, p.path) && Instantiates(src, p, m, name)
  }

  // ---------------------------------------------------------------- blocks

  ghost predicate BlocksIn(created: set<NetScope>, p: NetScope) {
    forall name, text ::
      HasChild(created, p, name, Other, text) <==> Block(name.text, text) in p.text && name.numbers == []
  }

  // -------------------------------------------------------- generate blocks

  /** The alternative that a condition or a case comes to. */
  ghost function Alternative(src: Source, p: NetScope, g: Item): Option<Item>
    requires g.Generate?
  {
    if g.scheme == Condit && src.choices.taken(p, g) then Some(g)
    else if g.scheme == Case && 0 <= src.choices.matched(p, g) < |g.items| then Some(g.items[src.choices.matched(p, g)])
    else None
  }

  /** Scheme b is carried out in p because g is: it is g, or stands in an alternative that is directly nested in p. */
  ghost predicate InForce(src: Source, p: NetScope, g: Item, b: Item)
    requires g.Generate?
    decreases g
  {
    || b == g
    || match Alternative(src, p, g)
       case None => false
       case Some(h) =>
         h.Generate? && h.direct &&
         exists k :: 0 <= k < |h.items| && h.items[k].Generate? && InForce(src, p, h.items[k], b)
  }

  /** Scheme b itself makes a block of this name and text. */
  ghost predicate MakesBlock(src: Source, p: NetScope, b: Item, name: HName.Key, text: seq<Item>) {
    b.Generate? &&
    match b.scheme
    case NBlock => name == HName.Key(b.name, []) && text == b.items
    case Loop =>
      |name.numbers| == 1 && name.text == b.name && name.numbers[0] in src.choices.values(p, b) && text == b.items
    case CaseItem => false
    case _ =>
      match Alternative(src, p, b)
      case None => false
      case Some(h) => h.Generate? && !h.direct && name == HName.Key(h.name, []) && text == h.items
  }

  ghost predicate Generates(src: Source, p: NetScope, name: HName.Key, text: seq<Item>) {
    exists k, b :: 0 <= k < |p.text| && GeneratesBy(src, p, p.text[k], b, name, text)
  }

  ghost predicate GeneratesBy(src: Source, p: NetScope, g: Item, b: Item, name: HName.Key, text: seq<Item>) {
    g.Generate? && InForce(src, p, g, b) && MakesBlock(src, p, b, name, text)
  }

  ghost predicate GenerateBlocksIn(src: Source, created: set<NetScope>, p: NetScope) {
    forall name, text :: HasChild(created, p, name, GenBlock, text) <==> Generates(src, p, name, text)
  }

  // ------------------------------------------- these are the calls of the text

  lemma {:induction false} SchemeCalls(src: Source, p: NetScope, g: Item, c: Call)
    requires g.Generate?
    ensures Calls(src, g, p, c) <==> c.kind == GenBlock && exists b :: GeneratesBy(src, p, g, b, c.name, c.text)
    decreases g
  {
    if GeneratesBy(src, p, g, g, c.name, c.text) && c.kind == GenBlock {
      OwnBlock(src, p, g, c);
    }
    match Alternative(src, p, g)
    case None =>
      NoAlternative(src, p, g, c);
    case Some(h) =>
      if h.Generate? && h.direct {
        forall k | 0 <= k < |h.items| && h.items[k].Generate?
          ensures Calls(src, h.items[k], p, c) <==>
                  c.kind == GenBlock && exists b :: GeneratesBy(src, p, h.items[k], b, c.name, c.text)
        {
          SchemeCalls(src, p, h.items[k], c);
        }
        DirectCalls(src, p, g, h, c);
      } else {
        PlainCalls(src, p, g, h, c);
      }
  }

  lemma OwnBlock(src: Source, p: NetScope, g: Item, c: Call)
    requires MakesBlock(src, p, g, c.name, c.text) && c.kind == GenBlock
    ensures Calls(src, g, p, c)
  {
    if g.scheme == Loop {
      var i :| 0 <= i < |src.choices.values(p, g)| && src.choices.values(p, g)[i] == c.name.numbers[0];
      assert c.name == HName.Key(g.name, [src.choices.values(p, g)[i]]);
    }
  }

  lemma NoAlternative(src: Source, p: NetScope, g: Item, c: Call)
    requires g.Generate? && Alternative(src, p, g).None?
    ensures Calls(src, g, p, c) <==> c.kind == GenBlock && exists b :: GeneratesBy(src, p, g, b, c.name, c.text)
  {
    if Calls(src, g, p, c) {
      assert GeneratesBy(src, p, g, g, c.name, c.text);
    }
    if c.kind == GenBlock {
      forall b | GeneratesBy(src, p, g, b, c.name, c.text)
        ensures Calls(src, g, p, c)
      {
        OwnBlock(src, p, g, c);
      }
    }
  }

  lemma AlternativeCalls(src: Source, p: NetScope, g: Item, h: Item, c: Call)
    requires g.Generate? && Alternative(src, p, g) == Some(h)
    ensures Calls(src, g, p, c) <==> CallsAlternative(src, h, p, c)
  {
  }

  lemma PlainCalls(src: Source, p: NetScope, g: Item, h: Item, c: Call)
    requires g.Generate? && Alternative(src, p, g) == Some(h) && !(h.Generate? && h.direct)
    ensures Calls(src, g, p, c) <==> c.kind == GenBlock && exists b :: GeneratesBy(src, p, g, b, c.name, c.text)
  {
    AlternativeCalls(src, p, g, h, c);
    if Calls(src, g, p, c) {
      assert GeneratesBy(src, p, g, g, c.name, c.text);
    }
    if c.kind == GenBlock {
      forall b | GeneratesBy(src, p, g, b, c.name, c.text)
        ensures Calls(src, g, p, c)
      {
        OwnBlock(src, p, g, c);
      }
    }
  }

  lemma DirectCalls(src: Source, p: NetScope, g: Item, h: Item, c: Call)
    requires g.Generate? && Alternative(src, p, g) == Some(h) && h.Generate? && h.direct
    requires forall k :: 0 <= k < |h.items| && h.items[k].Generate? ==>
               (Calls(src, h.items[k], p, c) <==>
                c.kind == GenBlock && exists b :: GeneratesBy(src, p, h.items[k], b, c.name, c.text))
    ensures Calls(src, g, p, c) <==> c.kind == GenBlock && exists b :: GeneratesBy(src, p, g, b, c.name, c.text)
  {
    AlternativeCalls(src, p, g, h, c);
    if Calls(src, g, p, c) {
      var k :| 0 <= k < |h.items| && h.items[k].Generate? && Calls(src, h.items[k], p, c);
      var b :| GeneratesBy(src, p, h.items[k], b, c.name, c.text);
      assert GeneratesBy(src, p, g, b, c.name, c.text);
    }
    if c.kind == GenBlock {
      forall b | GeneratesBy(src, p, g, b, c.name, c.text)
        ensures Calls(src, g, p, c)
      {
        assert InForce(src, p, g, b) && b != g;
        var k :| 0 <= k < |h.items| && h.items[k].Generate? && InForce(src, p, h.items[k], b);
        assert GeneratesBy(src, p, h.items[k], b, c.name, c.text);
      }
    }
  }

  /** A scope that has in it exactly what its text calls for has exactly these children. */
  lemma ContentsOf(src: Source, created: set<NetScope>, p: NetScope)
    requires forall c :: CalledFor(src, p, c) <==> HasScope(created, p, c)
    ensures ModulesIn(src, created, p) && BlocksIn(created, p) && GenerateBlocksIn(src, created, p)
  {
    forall name, kind, text
      ensures HasChild(created, p, name, kind, text) <==> CalledFor(src, p, Call(name, kind, text))
    {
      ChildAnswers(created, p, name, kind, text);
    }
    forall m, name, text
      ensures CalledFor(src, p, Call(name, Module(m), text)) <==>
              && m in src.library && text == src.library[m] && Accepted(src.limit, m, p.path)
              && Instantiates(src, p, m, name)
    {
      InstanceCalls(src, p, m, Call(name, Module(m), text));
    }
    forall name, text
      ensures CalledFor(src, p, Call(name, Other, text)) <==> Block(name.text, text) in p.text && name.numbers == []
    {
      BlockCalls(src, p, Call(name, Other, text));
    }
    forall name, text
      ensures CalledFor(src, p, Call(name, GenBlock, text)) <==> Generates(src, p, name, text)
    {
      GenerateCalls(src, p, Call(name, GenBlock, text));
    }
  }

  lemma ChildAnswers(created: set<NetScope>, p: NetScope, name: HName.Key, kind: Kind, text: seq<Item>)
    ensures HasChild(created, p, name, kind, text) <==> HasScope(created, p, Call(name, kind, text))
  {
    if HasChild(created, p, name, kind, text) {
      var s :| s in created && s.parent == p && s.name == name && s.kind == kind && s.text == text;
      assert Answers(s, p, Call(name, kind, text));
    }
  }

  lemma SchemeKind(src: Source, p: NetScope, g: Item, c: Call)
    requires g.Generate? && Calls(src, g, p, c)
    ensures c.kind == GenBlock
  {
    SchemeCalls(src, p, g, c);
  }

  lemma InstanceCalls(src: Source, p: NetScope, m: Name, c: Call)
    requires c.kind == Module(m)
    ensures CalledFor(src, p, c) <==>
            m in src.library && c.text == src.library[m] && Accepted(src.limit, m, p.path) &&
            Instantiates(src, p, m, c.name)
  {
    if CalledFor(src, p, c) {
      var k :| 0 <= k < |p.text| && Calls(src, p.text[k], p, c);
      match p.text[k]
      case Instance(_, gate, ranges) =>
        IndicesNamed(src, p, gate, ranges, c.name);
        assert Instance(m, gate, ranges) in p.text;
      case Block(_, _) =>
      case Generate(_, _, _, _) =>
        SchemeKind(src, p, p.text[k], c);
    }
    if m in src.library && c.text == src.library[m] && Accepted(src.limit, m, p.path) &&
       Instantiates(src, p, m, c.name) {
      var ranges: nat := if c.name.numbers == [] then 0 else 1;
      var k :| 0 <= k < |p.text| && p.text[k] == Instance(m, c.name.text, ranges);
      IndicesNamed(src, p, c.name.text, ranges, c.name);
      assert Calls(src, p.text[k], p, c);
    }
  }

  lemma BlockCalls(src: Source, p: NetScope, c: Call)
    requires c.kind == Other
    ensures CalledFor(src, p, c) <==> Block(c.name.text, c.text) in p.text && c.name.numbers == []
  {
    if CalledFor(src, p, c) {
      var k :| 0 <= k < |p.text| && Calls(src, p.text[k], p, c);
      if p.text[k].Generate? {
        SchemeKind(src, p, p.text[k], c);
      }
    }
    if Block(c.name.text, c.text) in p.text && c.name.numbers == [] {
      var k :| 0 <= k < |p.text| && p.text[k] == Block(c.name.text, c.text);
      assert Calls(src, p.text[k], p, c);
    }
  }

  lemma GenerateCalls(src: Source, p: NetScope, c: Call)
    requires c.kind == GenBlock
    ensures CalledFor(src, p, c) <==> Generates(src, p, c.name, c.text)
  {
    if CalledFor(src, p, c) {
      var k :| 0 <= k < |p.text| && Calls(src, p.text[k], p, c);
      assert p.text[k].Generate?;
      SchemeCalls(src, p, p.text[k], c);
    }
    if Generates(src, p, c.name, c.text) {
      var k, b :| 0 <= k < |p.text| && GeneratesBy(src, p, p.text[k], b, c.name, c.text);
      SchemeCalls(src, p, p.text[k], c);
    }
  }
}
