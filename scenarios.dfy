/**
  The renderer's documented behaviour, case by case: each method below
  builds renderers the way one case of the renderer's test suite does and
  states, as its postcondition, the text that case expects `convert`
  to give. The `trim` and `escapeText` cases are lemmas about the text
  utilities.
*/
module Scenarios {
  import opened Wrappers
  import opened Text
  import opened Selectors
  import opened Rules
  import opened Render

  const HeadingTags: seq<string> := ["H1", "H2", "H3", "H4", "H5", "H6"]
  const HeadingsKey: string := "H1, H2, H3, H4, H5, H6"

  lemma HeadingsKeyIsList()
    ensures ListKey(HeadingTags) == HeadingsKey
  {
    var t := HeadingTags;
    assert ListKey(t[..1]) == "H1";
    assert ListKey(t[..2]) == "H1, H2";
    assert t[..3][..2] == t[..2];
    assert ListKey(t[..3]) == "H1, H2, H3";
    assert t[..4][..3] == t[..3];
    assert ListKey(t[..4]) == "H1, H2, H3, H4";
    assert t[..5][..4] == t[..4];
    assert ListKey(t[..5]) == "H1, H2, H3, H4, H5";
    assert t[..6][..5] == t[..5];
    assert t[..6] == t;
  }

  /** The heading key expands into the six single-tag selectors H1 to H6. */
  lemma ParseHeadingsKey()
    ensures ParseKey(HeadingsKey) == Singles(HeadingTags)
  {
    HeadingsKeyIsList();
    ParseKeyOfList(HeadingTags);
  }

  /** A key that lists one selector gives a one-entry table. */
  lemma KeyTableSingle(key: string, c: Converter, sel: Selector)
    requires ParseKey(key) == [sel]
    ensures KeyTable(key, c) == map[sel := c]
  {
    forall s ensures s in KeyTable(key, c) <==> s == sel {
    }
  }

  /** A key listing single tags gives a table of single-tag selectors, each mapped to the converter. */
  lemma SinglesTable(key: string, tags: seq<string>, c: Converter)
    requires ParseKey(key) == Singles(tags)
    ensures forall k :: k in KeyTable(key, c) ==> |k| == 1
    ensures forall i :: 0 <= i < |tags| ==> [tags[i]] in KeyTable(key, c) && KeyTable(key, c)[[tags[i]]] == c
  {
    var sels := Singles(tags);
    forall k | k in KeyTable(key, c) ensures |k| == 1 {
      var i :| 0 <= i < |sels| && sels[i] == k;
    }
    forall i | 0 <= i < |tags| ensures [tags[i]] in KeyTable(key, c) {
      assert sels[i] == [tags[i]];
    }
  }

  /**
    What the heading key's table `kh` holds: single-tag selectors only, and
    each heading tag maps to `c`.
  */
  ghost predicate HeadingTable(kh: map<Selector, Converter>, c: Converter) {
    && (forall k :: k in kh ==> |k| == 1)
    && forall i :: 0 <= i < 6 ==> [HeadingTags[i]] in kh && kh[[HeadingTags[i]]] == c
  }

  /** The heading key registers exactly the six heading tags. */
  lemma HeadingKeyTable(c: Converter)
    ensures HeadingTable(KeyTable(HeadingsKey, c), c)
  {
    ParseHeadingsKey();
    SinglesTable(HeadingsKey, HeadingTags, c);
  }

  /** With the heading table registered, a heading at the root gets its converter. */
  lemma ConvertHeading(rules: seq<Rule>, kh: map<Selector, Converter>, c: Converter, i: nat, fallback: string)
    requires DistinctKeys(rules) && HeadingTable(kh, c) && TableOf(rules) == map[] + kh && i < 6
    ensures ConvertWith(rules, Element(HeadingTags[i], []), fallback) ==
              if IsFalsy(c) then fallback else c.value
  {
    ConvertRoot(rules, Element(HeadingTags[i], []), fallback);
  }

  /**
    test/renderer.spec.js:10-24: a heading rule added with `addRule` converts an H1 to
    whatever text its converter returns ("markdownText" in the suite).
  */
  method TakesRule(out: string) returns (text: string)
    ensures text == out
  {
    var c := Some(out);
    var r := new Renderer([]);
    r.AddRule(HeadingsKey, c);
    HeadingKeyTable(c);
    ConvertHeading(r.rules, KeyTable(HeadingsKey, c), c, 0, "");
    text := r.Convert(Element(HeadingTags[0], []), "");
  }

  /** Registering one more option adds its key's table on top. */
  lemma OptionsSnoc(m: map<Selector, Converter>, os: seq<(string, Converter)>, o: (string, Converter))
    ensures OptionsTable(m, os + [o]) == OptionsTable(m, os) + KeyTable(o.0, o.1)
  {
    assert (os + [o])[..|os|] == os;
  }

  lemma OneOption(m: map<Selector, Converter>, o: (string, Converter))
    ensures OptionsTable(m, [o]) == m + KeyTable(o.0, o.1)
  {
    OptionsSnoc(m, [], o);
    assert [] + [o] == [o];
  }

  lemma TwoOptions(m: map<Selector, Converter>, o1: (string, Converter), o2: (string, Converter))
    ensures OptionsTable(m, [o1, o2]) ==
              m + KeyTable(o1.0, o1.1) + KeyTable(o2.0, o2.1)
  {
    OptionsSnoc(m, [o1], o2);
    assert [o1] + [o2] == [o1, o2];
    OneOption(m, o1);
  }

  lemma ThreeOptions(m: map<Selector, Converter>, o1: (string, Converter), o2: (string, Converter), o3: (string, Converter))
    ensures OptionsTable(m, [o1, o2, o3]) ==
              m + KeyTable(o1.0, o1.1) + KeyTable(o2.0, o2.1)
                + KeyTable(o3.0, o3.1)
  {
    OptionsSnoc(m, [o1, o2], o3);
    assert [o1, o2] + [o3] == [o1, o2, o3];
    TwoOptions(m, o1, o2);
  }

  /** test/renderer.spec.js:26-40: the same rule given to the factory as an option. */
  method FactoryOption(out: string) returns (text: string)
    ensures text == out
  {
    var c := Some(out);
    var r := new Renderer([(HeadingsKey, c)]);
    OneOption(map[], (HeadingsKey, c));
    HeadingKeyTable(c);
    ConvertHeading(r.rules, KeyTable(HeadingsKey, c), c, 0, "");
    text := r.Convert(Element(HeadingTags[0], []), "");
  }

  /** test/renderer.spec.js:42-52: without a rule, `convert` returns the text it is given ("subContents"). */
  method NoRule(sub: string) returns (text: string)
    ensures text == sub
  {
    var r := new Renderer([]);
    assert r.Table() == map[];
    ConvertRoot(r.rules, Element(HeadingTags[0], []), sub);
    text := r.Convert(Element(HeadingTags[0], []), sub);
  }

  // ---------------------------------------------------------------------
  // Keys of the remaining cases, and how each parses

  const EmKey: string := "EM"
  const PKey: string := "P"
  const H1Key: string := "H1"
  const TextKey: string := "TEXT_NODE"
  const UlLiKey: string := "UL LI"
  const OlLiKey: string := "OL LI"
  const DivPKey: string := "DIV P"
  const DivH3Key: string := "DIV H3"
  const PDivH3Key: string := "P DIV H3"

  lemma ParseSingleKey(tag: string)
    requires WellFormedToken(tag) && ',' !in tag
    ensures ParseKey(tag) == [[tag]]
  {
    ParseKeyOfChain([tag]);
    assert Join([tag], ' ') == tag;
  }

  lemma ParsePairKey(outer: string, tag: string, key: string)
    requires WellFormedToken(outer) && ',' !in outer && WellFormedToken(tag) && ',' !in tag
    requires key == outer + " " + tag
    ensures ParseKey(key) == [[outer, tag]]
  {
    ParseKeyOfChain([outer, tag]);
    assert Join([outer, tag], ' ') == key;
  }

  lemma ParseEmKey() ensures ParseKey(EmKey) == [["EM"]] { ParseSingleKey(EmKey); }
  lemma ParsePKey() ensures ParseKey(PKey) == [["P"]] { ParseSingleKey(PKey); }
  lemma ParseH1Key() ensures ParseKey(H1Key) == [["H1"]] { ParseSingleKey(H1Key); }
  lemma ParseTextKey() ensures ParseKey(TextKey) == [[TextNodeRule]] { ParseSingleKey(TextKey); }
  lemma ParseUlLiKey() ensures ParseKey(UlLiKey) == [["UL", "LI"]] { ParsePairKey("UL", "LI", UlLiKey); }
  lemma ParseOlLiKey() ensures ParseKey(OlLiKey) == [["OL", "LI"]] { ParsePairKey("OL", "LI", OlLiKey); }
  lemma ParseDivPKey() ensures ParseKey(DivPKey) == [["DIV", "P"]] { ParsePairKey("DIV", "P", DivPKey); }
  lemma ParseDivH3Key() ensures ParseKey(DivH3Key) == [["DIV", "H3"]] { ParsePairKey("DIV", "H3", DivH3Key); }

  lemma ParsePDivH3Key()
    ensures ParseKey(PDivH3Key) == [["P", "DIV", "H3"]]
  {
    ParseKeyOfChain(["P", "DIV", "H3"]);
    assert Join(["P", "DIV", "H3"], ' ') == PDivH3Key;
  }

  // ---------------------------------------------------------------------
  // Falsy converters

  lemma FalsyOptions()
    ensures OptionsTable(map[], [(HeadingsKey, None), (EmKey, None)]) ==
              map[] + KeyTable(HeadingsKey, None) + map[["EM"] := None]
  {
    TwoOptions(map[], (HeadingsKey, None), (EmKey, None));
    ParseEmKey();
    KeyTableSingle(EmKey, None, ["EM"]);
  }

  lemma ConvertFalsy(rules: seq<Rule>, kh: map<Selector, Converter>, fallback: string)
    requires DistinctKeys(rules) && HeadingTable(kh, None)
    requires TableOf(rules) == map[] + kh + map[["EM"] := None]
    ensures ConvertWith(rules, Element(HeadingTags[0], []), fallback) == fallback
    ensures ConvertWith(rules, Element(EmKey, []), fallback) == fallback
  {
    ConvertRoot(rules, Element(HeadingTags[0], []), fallback);
    ConvertRoot(rules, Element(EmKey, []), fallback);
  }

  /**
    test/renderer.spec.js:54-74: converters that return a falsy value (`false`, or nothing)
    leave the given text in place, for the heading rule and for EM.
  */
  method FalsyConverters(sub: string) returns (h1: string, em: string)
    ensures h1 == sub && em == sub
  {
    var r := new Renderer([(HeadingsKey, None), (EmKey, None)]);
    FalsyOptions();
    HeadingKeyTable(None);
    ConvertFalsy(r.rules, KeyTable(HeadingsKey, None), sub);
    h1 := r.Convert(Element(HeadingTags[0], []), sub);
    em := r.Convert(Element(EmKey, []), sub);
  }

  /** test/renderer.spec.js:76-97: each heading of the comma-separated key gets the rule, H2 and H6 among them. */
  method CommaSeparated(out: string) returns (h2: string, h6: string)
    ensures h2 == out && h6 == out
  {
    var c := Some(out);
    var r := new Renderer([(HeadingsKey, c)]);
    OneOption(map[], (HeadingsKey, c));
    HeadingKeyTable(c);
    ConvertHeading(r.rules, KeyTable(HeadingsKey, c), c, 1, "");
    ConvertHeading(r.rules, KeyTable(HeadingsKey, c), c, 5, "");
    h2 := r.Convert(Element(HeadingTags[1], []), "");
    h6 := r.Convert(Element(HeadingTags[5], []), "");
  }

  // ---------------------------------------------------------------------
  // Nested selectors

  lemma NestedOptions(ul: string, ol: string)
    ensures OptionsTable(map[], [(UlLiKey, Some(ul)), (OlLiKey, Some(ol))]) ==
              map[] + map[["UL", "LI"] := Some(ul)] + map[["OL", "LI"] := Some(ol)]
  {
    TwoOptions(map[], (UlLiKey, Some(ul)), (OlLiKey, Some(ol)));
    ParseUlLiKey();
    ParseOlLiKey();
    KeyTableSingle(UlLiKey, Some(ul), ["UL", "LI"]);
    KeyTableSingle(OlLiKey, Some(ol), ["OL", "LI"]);
  }

  /** Each list item is matched by its own list's selector only. */
  lemma NestedMatches()
    ensures Matches(["UL", "LI"], Element("LI", ["UL"])) && !Matches(["OL", "LI"], Element("LI", ["UL"]))
    ensures Matches(["OL", "LI"], Element("LI", ["OL"])) && !Matches(["UL", "LI"], Element("LI", ["OL"]))
  {
    assert ["UL", "LI"][..1] == ["UL"];
    assert ["OL", "LI"][..1] == ["OL"];
  }

  lemma ConvertNested(rules: seq<Rule>, ul: string, ol: string)
    requires DistinctKeys(rules)
    requires TableOf(rules) == map[] + map[["UL", "LI"] := Some(ul)] + map[["OL", "LI"] := Some(ol)]
    ensures ConvertWith(rules, Element("LI", ["UL"]), "") == ul
    ensures ConvertWith(rules, Element("LI", ["OL"]), "") == ol
  {
    NestedMatches();
    ConvertByTable(rules, Element("LI", ["UL"]), "", ["UL", "LI"]);
    ConvertByTable(rules, Element("LI", ["OL"]), "", ["OL", "LI"]);
  }

  /**
    test/renderer.spec.js:99-125: "UL LI" and "OL LI" tell a list item by the list around
    it ("ulli" and "olli" in the suite).
  */
  method NestedSelectors(ul: string, ol: string) returns (inUl: string, inOl: string)
    ensures inUl == ul && inOl == ol
  {
    var r := new Renderer([(UlLiKey, Some(ul)), (OlLiKey, Some(ol))]);
    NestedOptions(ul, ol);
    ConvertNested(r.rules, ul, ol);
    inUl := r.Convert(Element("LI", ["UL"]), "");
    inOl := r.Convert(Element("LI", ["OL"]), "");
  }

  lemma BelowRootOptions(divP: string, p: string)
    ensures OptionsTable(map[], [(DivPKey, Some(divP)), (PKey, Some(p))]) ==
              map[] + map[["DIV", "P"] := Some(divP)] + map[["P"] := Some(p)]
  {
    TwoOptions(map[], (DivPKey, Some(divP)), (PKey, Some(p)));
    ParseDivPKey();
    ParsePKey();
    KeyTableSingle(DivPKey, Some(divP), ["DIV", "P"]);
    KeyTableSingle(PKey, Some(p), ["P"]);
  }

  lemma ConvertBelowRoot(rules: seq<Rule>, divP: string, p: string)
    requires DistinctKeys(rules)
    requires TableOf(rules) == map[] + map[["DIV", "P"] := Some(divP)] + map[["P"] := Some(p)]
    ensures ConvertWith(rules, Element("P", []), "") == p
  {
    ConvertRoot(rules, Element("P", []), "");
  }

  /**
    test/renderer.spec.js:127-144: the wrapping root is not an ancestor, so a P right below
    it is converted by "P" and not by "DIV P".
  */
  method NotOverRoot(divP: string, p: string) returns (text: string)
    ensures text == p
  {
    var r := new Renderer([(DivPKey, Some(divP)), (PKey, Some(p))]);
    BelowRootOptions(divP, p);
    ConvertBelowRoot(r.rules, divP, p);
    text := r.Convert(Element("P", []), "");
  }

  lemma TextOptions(out: string)
    ensures OptionsTable(map[], [(TextKey, Some(out))]) == map[] + map[[TextNodeRule] := Some(out)]
  {
    OneOption(map[], (TextKey, Some(out)));
    ParseTextKey();
    KeyTableSingle(TextKey, Some(out), [TextNodeRule]);
  }

  lemma ConvertText(rules: seq<Rule>, out: string)
    requires DistinctKeys(rules)
    requires TableOf(rules) == map[] + map[[TextNodeRule] := Some(out)]
    ensures ConvertWith(rules, TextNode(["P"]), "") == out
  {
    ConvertByTable(rules, TextNode(["P"]), "", [TextNodeRule]);
  }

  /** test/renderer.spec.js:146-161: a text node is looked up by the rule name "TEXT_NODE". */
  method TextNodeRuleName(out: string) returns (text: string)
    ensures text == out
  {
    var r := new Renderer([(TextKey, Some(out))]);
    TextOptions(out);
    ConvertText(r.rules, out);
    text := r.Convert(TextNode(["P"]), "");
  }

  // ---------------------------------------------------------------------
  // Mixing two renderers

  /** The first renderer's table: the headings, then "P DIV H3" and "DIV H3". */
  function FirstTable(kh: map<Selector, Converter>, c: Converter): (t: map<Selector, Converter>) {
    map[] + kh + map[["P", "DIV", "H3"] := c] + map[["DIV", "H3"] := c]
  }

  /** The second renderer's table: "H1", "P" and "P DIV H3". */
  function SecondTable(c: Converter): (t: map<Selector, Converter>) {
    map[] + map[["H1"] := c] + map[["P"] := c] + map[["P", "DIV", "H3"] := c]
  }

  lemma FirstOptions(c: Converter)
    ensures OptionsTable(map[], [(HeadingsKey, c), (PDivH3Key, c), (DivH3Key, c)]) ==
              FirstTable(KeyTable(HeadingsKey, c), c)
  {
    ThreeOptions(map[], (HeadingsKey, c), (PDivH3Key, c), (DivH3Key, c));
    ParsePDivH3Key();
    ParseDivH3Key();
    KeyTableSingle(PDivH3Key, c, ["P", "DIV", "H3"]);
    KeyTableSingle(DivH3Key, c, ["DIV", "H3"]);
  }

  lemma SecondOptions(c: Converter)
    ensures OptionsTable(map[], [(H1Key, c), (PKey, c), (PDivH3Key, c)]) == SecondTable(c)
  {
    ThreeOptions(map[], (H1Key, c), (PKey, c), (PDivH3Key, c));
    ParseH1Key();
    ParsePKey();
    ParsePDivH3Key();
    KeyTableSingle(H1Key, c, ["H1"]);
    KeyTableSingle(PKey, c, ["P"]);
    KeyTableSingle(PDivH3Key, c, ["P", "DIV", "H3"]);
  }

  /** Every key of the mixed table is a single tag, "DIV H3" or "P DIV H3". */
  lemma MixedKeys(kh: map<Selector, Converter>, c1: Converter, c2: Converter)
    requires HeadingTable(kh, c1)
    ensures forall k :: k in FirstTable(kh, c1) + SecondTable(c2) ==>
              |k| == 1 || k == ["DIV", "H3"] || k == ["P", "DIV", "H3"]
  {
  }

  /**
    The mixed table: the second renderer's keys take over, the first
    renderer's other keys stay, whatever comma group they came in.
  */
  lemma MixedEntries(kh: map<Selector, Converter>, c1: Converter, c2: Converter)
    requires HeadingTable(kh, c1)
    ensures var t := FirstTable(kh, c1) + SecondTable(c2);
      && ["H1"] in t && t[["H1"]] == c2
      && ["H2"] in t && t[["H2"]] == c1
      && ["P"] in t && t[["P"]] == c2
      && ["H3"] in t && t[["H3"]] == c1
      && ["DIV", "H3"] in t && t[["DIV", "H3"]] == c1
      && ["P", "DIV", "H3"] in t && t[["P", "DIV", "H3"]] == c2
  {
    var first := FirstTable(kh, c1);
    var second := SecondTable(c2);
    assert [HeadingTags[1]] == ["H2"] && [HeadingTags[2]] == ["H3"];
    assert ["H2"] in first && first[["H2"]] == c1;
    assert ["H3"] in first && first[["H3"]] == c1;
    assert ["DIV", "H3"] in first && first[["DIV", "H3"]] == c1;
    assert ["H1"] in second && ["P"] in second && ["P", "DIV", "H3"] in second;
    assert ["H2"] !in second && ["H3"] !in second && ["DIV", "H3"] !in second;
  }

  /** A single-tag selector matches a node only when it names the node. */
  lemma SingleMatch(k: Selector, node: Node)
    requires |k| == 1 && Matches(k, node)
    ensures k == [RuleName(node)]
  {
  }

  lemma NestedH3Matches()
    ensures !Matches(["DIV", "H3"], Element("H3", ["P"]))
    ensures !Matches(["P", "DIV", "H3"], Element("H3", ["P"]))
    ensures Matches(["DIV", "H3"], Element("H3", ["DIV"]))
    ensures !Matches(["P", "DIV", "H3"], Element("H3", ["DIV"]))
    ensures Matches(["P", "DIV", "H3"], Element("H3", ["DIV", "P"]))
  {
    assert ["DIV", "H3"][..1] == ["DIV"];
    assert ["P", "DIV", "H3"][..2] == ["P", "DIV"];
    assert ["P", "DIV"][..1] == ["P"];
  }

  /**
    In a table whose keys are single tags, "DIV H3" and "P DIV H3", the
    most specific of them that matches a node decides its conversion.
  */
  lemma ConvertMostSpecific(rules: seq<Rule>, node: Node, k: Selector)
    requires DistinctKeys(rules) && k in TableOf(rules) && Matches(k, node)
    requires forall k' :: k' in TableOf(rules) ==>
               |k'| == 1 || k' == ["DIV", "H3"] || k' == ["P", "DIV", "H3"]
    requires |k| == 1 ==> !Matches(["DIV", "H3"], node) && !Matches(["P", "DIV", "H3"], node)
    requires |k| == 2 ==> !Matches(["P", "DIV", "H3"], node)
    requires |k| <= 3
    ensures ConvertWith(rules, node, "") ==
              if IsFalsy(TableOf(rules)[k]) then "" else TableOf(rules)[k].value
  {
    forall k' | k' in TableOf(rules) && k' != k && Matches(k', node)
      ensures Specificity(k') < Specificity(k)
    {
      if |k'| == 1 {
        SingleMatch(k', node);
        if |k| == 1 {
          SingleMatch(k, node);
        }
      }
    }
    ConvertByTable(rules, node, "", k);
  }

  lemma ConvertMixedRoots(rules: seq<Rule>, kh: map<Selector, Converter>, a: string, b: string)
    requires DistinctKeys(rules) && HeadingTable(kh, Some(a))
    requires TableOf(rules) == FirstTable(kh, Some(a)) + SecondTable(Some(b))
    ensures ConvertWith(rules, Element("H1", []), "") == b
    ensures ConvertWith(rules, Element("H2", []), "") == a
    ensures ConvertWith(rules, Element("P", []), "") == b
  {
    MixedEntries(kh, Some(a), Some(b));
    ConvertRoot(rules, Element("H1", []), "");
    ConvertRoot(rules, Element("H2", []), "");
    ConvertRoot(rules, Element("P", []), "");
  }

  lemma ConvertMixedNested(rules: seq<Rule>, kh: map<Selector, Converter>, a: string, b: string)
    requires DistinctKeys(rules) && HeadingTable(kh, Some(a))
    requires TableOf(rules) == FirstTable(kh, Some(a)) + SecondTable(Some(b))
    ensures ConvertWith(rules, Element("H3", ["P"]), "") == a
    ensures ConvertWith(rules, Element("H3", ["DIV"]), "") == a
    ensures ConvertWith(rules, Element("H3", ["DIV", "P"]), "") == b
  {
    MixedKeys(kh, Some(a), Some(b));
    MixedEntries(kh, Some(a), Some(b));
    NestedH3Matches();
    ConvertMostSpecific(rules, Element("H3", ["P"]), ["H3"]);
    ConvertMostSpecific(rules, Element("H3", ["DIV"]), ["DIV", "H3"]);
    ConvertMostSpecific(rules, Element("H3", ["DIV", "P"]), ["P", "DIV", "H3"]);
  }

  /**
    test/renderer.spec.js:222-276: after `renderer1.mix(renderer2)`, H1, P and "P DIV H3"
    come from the second renderer ("renderer2"); H2, "DIV H3" and the other
    headings keep the first renderer's converter ("renderer1"). The nodes
    are bare parent chains: an H3 inside a P, inside a DIV, and inside a
    DIV inside a P.
  */
  method MixRenderers(a: string, b: string)
    returns (h1: string, h2: string, p: string, pH3: string, divH3: string, pDivH3: string)
    ensures h1 == b && h2 == a && p == b && pH3 == a && divH3 == a && pDivH3 == b
  {
    var r1 := new Renderer([(HeadingsKey, Some(a)), (PDivH3Key, Some(a)), (DivH3Key, Some(a))]);
    var r2 := new Renderer([(H1Key, Some(b)), (PKey, Some(b)), (PDivH3Key, Some(b))]);
    FirstOptions(Some(a));
    SecondOptions(Some(b));
    r1.Mix(r2);
    HeadingKeyTable(Some(a));
    ConvertMixedRoots(r1.rules, KeyTable(HeadingsKey, Some(a)), a, b);
    ConvertMixedNested(r1.rules, KeyTable(HeadingsKey, Some(a)), a, b);
    h1 := r1.Convert(Element("H1", []), "");
    h2 := r1.Convert(Element("H2", []), "");
    p := r1.Convert(Element("P", []), "");
    pH3 := r1.Convert(Element("H3", ["P"]), "");
    divH3 := r1.Convert(Element("H3", ["DIV"]), "");
    pDivH3 := r1.Convert(Element("H3", ["DIV", "P"]), "");
  }

  // ---------------------------------------------------------------------
  // trim and escapeText (the suite's strings, written as the pieces the
  // proof takes them apart into)

  /** Trailing white space only. */
  lemma TrimOfSuffixed(m: string, b: string)
    requires AllTrimmable(b) && m != [] && !IsTrimmable(m[0]) && !IsTrimmable(m[|m| - 1])
    ensures Trim(m + b) == m
  {
    var e: string := [];
    TrimOfPadded(e, m, b);
    assert e + m + b == m + b;
  }

  /** White space on both sides. */
  lemma TrimOfSurrounded(a: string, m: string, b: string)
    requires AllTrimmable(a) && AllTrimmable(b) && m != [] && !IsTrimmable(m[0]) && !IsTrimmable(m[|m| - 1])
    ensures Trim(a + m + b) == m
  {
    TrimOfPadded(a, m, b);
  }

  /** Nothing but white space. */
  lemma TrimAllTrimmable(s: string)
    requires AllTrimmable(s)
    ensures Trim(s) == []
  {
  }

  /** test/renderer.spec.js:166: CR and LF are stripped from the end. */
  lemma TrimLineBreaks()
    ensures Trim("aa" + "\r\n") == "aa"
  {
    TrimOfSuffixed("aa", "\r\n");
  }

  /** test/renderer.spec.js:167: a lone tab trims to nothing. */
  lemma TrimTab()
    ensures Trim("\t") == ""
  {
    TrimAllTrimmable("\t");
  }

  /** test/renderer.spec.js:168: outer spaces go, the inner one stays. */
  lemma TrimSpaces()
    ensures Trim(" " + "aa aa" + " ") == "aa aa"
  {
    TrimOfSurrounded(" ", "aa aa", " ");
  }

  /** test/renderer.spec.js:169: a non-breaking space is not white space to `trim`. */
  lemma TrimKeepsNonBreakingSpace()
    ensures Trim("Hello" + [NonBreakingSpace] + " ") == "Hello" + [NonBreakingSpace]
  {
    TrimOfSuffixed("Hello" + [NonBreakingSpace], " ");
  }

  /** Two protected characters around plain text. */
  lemma EscapePair(a: string, p: char, m: string, q: char)
    requires Plain(a) && Plain(m) && IsProtected(p) && IsProtected(q)
    ensures EscapeText(a + [p] + m + [q]) == a + ['\\', p] + m + ['\\', q]
  {
    EscapeTextConcat(a + [p] + m, [q]);
    EscapeTextConcat(a + [p], m);
    EscapeTextConcat(a, [p]);
    EscapeTextPlain(a);
    EscapeTextPlain(m);
    EscapeProtected(p);
    EscapeProtected(q);
  }

  /** test/renderer.spec.js:175-179: an emphasis, link or group marker on both sides of a word. */
  lemma EscapeWrappedCases()
    ensures EscapeText("im " + "*" + "text" + "*") == "im " + "\\*" + "text" + "\\*"
    ensures EscapeText("im " + "(" + "text" + ")") == "im " + "\\(" + "text" + "\\)"
    ensures EscapeText("im " + "[" + "text" + "]") == "im " + "\\[" + "text" + "\\]"
    ensures EscapeText("im " + "{" + "text" + "}") == "im " + "\\{" + "text" + "\\}"
    ensures EscapeText("im " + "_" + "text" + "_") == "im " + "\\_" + "text" + "\\_"
  {
    EscapePair("im ", '*', "text", '*');
    EscapePair("im ", '(', "text", ')');
    EscapePair("im ", '[', "text", ']');
    EscapePair("im ", '{', "text", '}');
    EscapePair("im ", '_', "text", '_');
  }

  /** A protected character between plain texts. */
  lemma EscapeOne(a: string, p: char, n: string)
    requires Plain(a) && Plain(n) && IsProtected(p)
    ensures EscapeText(a + [p] + n) == a + ['\\', p] + n
  {
    EscapeTextConcat(a + [p], n);
    EscapeTextConcat(a, [p]);
    EscapeTextPlain(a);
    EscapeTextPlain(n);
    EscapeProtected(p);
  }

  /** Two adjacent protected characters between plain texts. */
  lemma EscapeAdjacent(a: string, p: char, q: char, n: string)
    requires Plain(a) && Plain(n) && IsProtected(p) && IsProtected(q)
    ensures EscapeText(a + [p] + [q] + n) == a + ['\\', p] + ['\\', q] + n
  {
    EscapeTextConcat(a + [p] + [q], n);
    EscapeTextConcat(a + [p], [q]);
    EscapeTextConcat(a, [p]);
    EscapeTextPlain(a);
    EscapeTextPlain(n);
    EscapeProtected(p);
    EscapeProtected(q);
  }

  /** test/renderer.spec.js:180-181: each of two adjacent markers is escaped on its own, and a lone backtick too. */
  lemma EscapeRepeatedCases()
    ensures EscapeText("im " + "#" + "#" + " text") == "im " + "\\#" + "\\#" + " text"
    ensures EscapeText("im " + "`" + " text") == "im " + "\\`" + " text"
  {
    EscapeAdjacent("im ", '#', '#', " text");
    EscapeOne("im ", '`', " text");
  }

  /** test/renderer.spec.js:182-183: list and punctuation markers apart from the word. */
  lemma EscapeSpacedCases()
    ensures EscapeText("im " + "+" + " text " + "-") == "im " + "\\+" + " text " + "\\-"
    ensures EscapeText("im " + "." + " text " + "!") == "im " + "\\." + " text " + "\\!"
  {
    EscapePair("im ", '+', " text ", '-');
    EscapePair("im ", '.', " text ", '!');
  }
}
