/**
  The renderer object: it owns one rule table, which `addRule`, the
  factory's options and `mix` update in place, and answers `convert`
  queries from it.
*/
module Render {
  import opened Wrappers
  import opened Selectors
  import opened Rules

  class Renderer {
    /** The rule table, one entry per exact selector, in registration order. */
    var rules: seq<Rule>

    /** Keys are unique and every key is a parsed, well-formed selector. */
    ghost predicate Valid()
      reads this
    {
      DistinctKeys(rules) && AllWellFormed(rules)
    }

    /** The table's meaning: selector to converter. */
    ghost function Table(): (m: map<Selector, Converter>)
      reads this
    {
      TableOf(rules)
    }

    /**
      `Renderer.factory(options)`: a fresh renderer whose table holds the
      options' rules, each key registered as `addRule` would, in order.
    */
    constructor (options: seq<(string, Converter)>)
      ensures Valid()
      ensures rules == AddOptions([], options)
      ensures Table() == OptionsTable(map[], options)
    {
      rules := [];
      new;
      var i := 0;
      while i < |options|
        invariant 0 <= i <= |options|
        invariant Valid()
        invariant rules == AddOptions([], options[..i])
        invariant Table() == OptionsTable(map[], options[..i])
      {
        assert options[..i + 1][..i] == options[..i];
        AddRule(options[i].0, options[i].1);
        i := i + 1;
      }
      assert options[..i] == options;
    }

    /**
      `addRule(key, converter)`: every selector of the comma-joined key is
      registered with the converter; an entry for the same exact selector
      is replaced, every other entry is kept.
    */
    method AddRule(key: string, c: Converter)
      requires Valid()
      modifies this
      ensures Valid()
      ensures rules == AddKey(old(rules), key, c)
      ensures Table() == old(Table()) + KeyTable(key, c)
    {
      var sels := ParseKey(key);
      var i := 0;
      while i < |sels|
        invariant 0 <= i <= |sels|
        invariant rules == PutAll(old(rules), sels[..i], c)
      {
        PutAllStep(old(rules), sels, i, c);
        rules := Put(rules, sels[i], c);
        i := i + 1;
      }
      assert sels[..i] == sels;
      PutAllValid(old(rules), sels, c);
      TableOfAddKey(old(rules), key, c);
    }

    /**
      `mix(other)`: the other renderer's entries are registered here one
      exact selector at a time; keys the other table lacks keep their
      converters, whatever comma group they were registered in. The other
      renderer is not changed.
    */
    method Mix(other: Renderer)
      requires Valid() && other.Valid()
      modifies this
      ensures Valid()
      ensures rules == PutEntries(old(rules), old(other.rules))
      ensures Table() == old(Table()) + old(other.Table())
      ensures other != this ==> other.rules == old(other.rules)
    {
      var src := other.rules;
      var i := 0;
      while i < |src|
        invariant 0 <= i <= |src|
        invariant rules == PutEntries(old(rules), src[..i])
      {
        assert src[..i + 1][..i] == src[..i];
        rules := Put(rules, src[i].selector, src[i].converter);
        i := i + 1;
      }
      assert src[..i] == src;
      PutEntriesValid(old(rules), src);
      TableOfPutEntries(old(rules), src);
    }

    /**
      `convert(node, fallback)` against the current table: the fallback when
      no key matches the node; otherwise the most specific matching key's
      converter decides, its falsy result giving the fallback back.
    */
    function Convert(node: Node, fallback: string): (r: string)
      reads this
      ensures (forall k :: k in Table() ==> !Matches(k, node)) ==> r == fallback
      ensures Valid() ==> forall k :: MostSpecificKey(Table(), node, k) ==>
                r == if IsFalsy(Table()[k]) then fallback else Table()[k].value
    {
      ConvertFollowsTable(rules, node, fallback);
      ConvertWith(rules, node, fallback)
    }
  }
}
