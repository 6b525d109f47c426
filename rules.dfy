/**
  The rule table and the choice of a rule for a node.

  The table is kept as the sequence of its entries in registration order,
  one entry per exact selector. Registering a selector that is already
  present removes the old entry and appends the new one, so the table's
  abstract meaning is a map from selector to converter with last-write-wins,
  and the order of the entries records which key was registered most
  recently (used only to break ties between equally specific matches).
*/
module Rules {
  import opened Wrappers
  import opened Selectors

  /**
    A converter, represented by what it returns. `None` stands for a
    callback returning `false` or `undefined`; `Some("")` for one returning
    the empty string. Both are falsy.
  */
  type Converter = Option<string>

  predicate IsFalsy(c: Converter) {
    c.None? || c.value == ""
  }

  datatype Rule = Rule(selector: Selector, converter: Converter)

  /** The selectors that have an entry. */
  function Keys(rules: seq<Rule>): (ks: set<Selector>)
    decreases |rules|
  {
    if rules == [] then {} else Keys(rules[..|rules| - 1]) + {rules[|rules| - 1].selector}
  }

  lemma {:induction false} InKeys(rules: seq<Rule>, i: int)
    requires 0 <= i < |rules|
    ensures rules[i].selector in Keys(rules)
    decreases |rules|
  {
    if i < |rules| - 1 {
      InKeys(rules[..|rules| - 1], i);
    }
  }

  predicate DistinctKeys(rules: seq<Rule>) {
    forall i, j :: 0 <= i < j < |rules| ==> rules[i].selector != rules[j].selector
  }

  predicate AllWellFormed(rules: seq<Rule>) {
    forall i :: 0 <= i < |rules| ==> WellFormed(rules[i].selector)
  }

  /** The table's meaning: each selector mapped to its converter, later entries winning. */
  function TableOf(rules: seq<Rule>): (m: map<Selector, Converter>) {
    if rules == [] then map[]
    else map[rules[0].selector := rules[0].converter] + TableOf(rules[1..])
  }

  /** The entries whose selector is not in `ks`, in their order. */
  function WithoutKeys(rules: seq<Rule>, ks: set<Selector>): (r: seq<Rule>)
    ensures |r| <= |rules|
    ensures forall i :: 0 <= i < |r| ==> r[i] in rules && r[i].selector !in ks
  {
    if rules == [] then []
    else (if rules[0].selector in ks then [] else [rules[0]]) + WithoutKeys(rules[1..], ks)
  }

  /** Registers one exact selector: any old entry for it goes, the new one is appended. */
  function Put(rules: seq<Rule>, sel: Selector, c: Converter): (r: seq<Rule>) {
    WithoutKeys(rules, {sel}) + [Rule(sel, c)]
  }

  /** Registers every selector of `sels`, in order, with the same converter. */
  function PutAll(rules: seq<Rule>, sels: seq<Selector>, c: Converter): (r: seq<Rule>)
    decreases |sels|
  {
    if sels == [] then rules
    else Put(PutAll(rules, sels[..|sels| - 1], c), sels[|sels| - 1], c)
  }

  /** Registers every entry of `src`, one exact selector at a time, in order. */
  function PutEntries(rules: seq<Rule>, src: seq<Rule>): (r: seq<Rule>)
    decreases |src|
  {
    if src == [] then rules
    else
      var e := src[|src| - 1];
      Put(PutEntries(rules, src[..|src| - 1]), e.selector, e.converter)
  }

  /** `addRule(key, converter)` on a table: one entry per selector of the key. */
  function AddKey(rules: seq<Rule>, key: string, c: Converter): (r: seq<Rule>) {
    PutAll(rules, ParseKey(key), c)
  }

  /** The factory's options, as `(key, converter)` pairs in their order. */
  function AddOptions(rules: seq<Rule>, options: seq<(string, Converter)>): (r: seq<Rule>)
    decreases |options|
  {
    if options == [] then rules
    else
      var o := options[|options| - 1];
      AddKey(AddOptions(rules, options[..|options| - 1]), o.0, o.1)
  }

  // ---------------------------------------------------------------------
  // The table invariant

  lemma {:induction false} WithoutKeysDistinct(rules: seq<Rule>, ks: set<Selector>)
    requires DistinctKeys(rules)
    ensures DistinctKeys(WithoutKeys(rules, ks))
  {
    if rules != [] {
      WithoutKeysDistinct(rules[1..], ks);
      var rest := WithoutKeys(rules[1..], ks);
      if rules[0].selector !in ks {
        forall j | 0 <= j < |rest| ensures rules[0].selector != rest[j].selector {
          assert rest[j] in rules[1..];
        }
        assert forall j :: 0 < j < |[rules[0]] + rest| ==> ([rules[0]] + rest)[j] == rest[j - 1];
      } else {
        assert WithoutKeys(rules, ks) == rest;
      }
    }
  }

  /** Registering a well-formed selector keeps the keys distinct and well-formed. */
  lemma PutValid(rules: seq<Rule>, sel: Selector, c: Converter)
    requires DistinctKeys(rules) && AllWellFormed(rules) && WellFormed(sel)
    ensures DistinctKeys(Put(rules, sel, c)) && AllWellFormed(Put(rules, sel, c))
  {
    var w := WithoutKeys(rules, {sel});
    WithoutKeysDistinct(rules, {sel});
    forall i | 0 <= i < |w| ensures w[i].selector != sel && WellFormed(w[i].selector) {
      assert w[i] in rules;
    }
  }

  lemma {:induction false} PutAllValid(rules: seq<Rule>, sels: seq<Selector>, c: Converter)
    requires DistinctKeys(rules) && AllWellFormed(rules)
    requires forall i :: 0 <= i < |sels| ==> WellFormed(sels[i])
    ensures DistinctKeys(PutAll(rules, sels, c)) && AllWellFormed(PutAll(rules, sels, c))
    decreases |sels|
  {
    if sels != [] {
      PutAllValid(rules, sels[..|sels| - 1], c);
      PutValid(PutAll(rules, sels[..|sels| - 1], c), sels[|sels| - 1], c);
    }
  }

  // ---------------------------------------------------------------------
  // Exact-key overwrite

  lemma {:induction false} TableOfConcat(a: seq<Rule>, b: seq<Rule>)
    ensures TableOf(a + b) == TableOf(a) + TableOf(b)
  {
    if a == [] {
      assert a + b == b;
    } else {
      var h := map[a[0].selector := a[0].converter];
      assert (a + b)[0] == a[0];
      assert (a + b)[1..] == a[1..] + b;
      TableOfConcat(a[1..], b);
      assert TableOf(a + b) == h + TableOf(a[1..] + b);
      UnionAssoc(h, TableOf(a[1..]), TableOf(b));
    }
  }

  lemma UnionAssoc(m1: map<Selector, Converter>, m2: map<Selector, Converter>, m3: map<Selector, Converter>)
    ensures m1 + (m2 + m3) == (m1 + m2) + m3
  {
  }

  lemma {:induction false} TableOfWithoutKeys(rules: seq<Rule>, ks: set<Selector>)
    ensures TableOf(WithoutKeys(rules, ks)) == TableOf(rules) - ks
  {
    if rules != [] {
      TableOfWithoutKeys(rules[1..], ks);
      var h := rules[0];
      var w := WithoutKeys(rules[1..], ks);
      if h.selector in ks {
        assert WithoutKeys(rules, ks) == w;
        OverwriteRemoved(h.selector, h.converter, TableOf(rules[1..]), ks);
      } else {
        assert WithoutKeys(rules, ks) == [h] + w;
        assert ([h] + w)[1..] == w;
        OverwriteKept(h.selector, h.converter, TableOf(rules[1..]), ks);
      }
    }
  }

  lemma OverwriteRemoved(k: Selector, c: Converter, m: map<Selector, Converter>, ks: set<Selector>)
    requires k in ks
    ensures (map[k := c] + m) - ks == m - ks
  {
  }

  lemma OverwriteKept(k: Selector, c: Converter, m: map<Selector, Converter>, ks: set<Selector>)
    requires k !in ks
    ensures (map[k := c] + m) - ks == map[k := c] + (m - ks)
  {
  }

  lemma TableOfSingle(e: Rule)
    ensures TableOf([e]) == map[e.selector := e.converter]
  {
    assert [e][1..] == [];
  }

  lemma RemoveThenSet(m: map<Selector, Converter>, k: Selector, c: Converter)
    ensures (m - {k}) + map[k := c] == m[k := c]
  {
  }

  lemma SetAfterUnion(m1: map<Selector, Converter>, m2: map<Selector, Converter>, k: Selector, c: Converter)
    ensures (m1 + m2)[k := c] == m1 + (m2 + map[k := c])
  {
  }

  lemma SetAfterUniform(m: map<Selector, Converter>, init: seq<Selector>, x: Selector, c: Converter)
    ensures (m + map s | s in init :: c)[x := c] == m + map s | s in init + [x] :: c
  {
    var lhs := (m + map s | s in init :: c)[x := c];
    var rhs := m + map s | s in init + [x] :: c;
    assert lhs.Keys == rhs.Keys;
  }

  /** Registering one selector is an overwrite of exactly that key. */
  lemma TableOfPut(rules: seq<Rule>, sel: Selector, c: Converter)
    ensures TableOf(Put(rules, sel, c)) == TableOf(rules)[sel := c]
  {
    var w := WithoutKeys(rules, {sel});
    TableOfConcat(w, [Rule(sel, c)]);
    TableOfWithoutKeys(rules, {sel});
    TableOfSingle(Rule(sel, c));
    RemoveThenSet(TableOf(rules), sel, c);
  }

  /** `addRule` with a comma-joined key overwrites exactly the expanded keys, all with one converter. */
  lemma {:induction false} TableOfPutAll(rules: seq<Rule>, sels: seq<Selector>, c: Converter)
    ensures TableOf(PutAll(rules, sels, c)) == TableOf(rules) + map s | s in sels :: c
    decreases |sels|
  {
    if sels == [] {
      assert (map s | s in sels :: c) == map[];
      assert TableOf(rules) + map[] == TableOf(rules);
    } else {
      var n := |sels| - 1;
      TableOfPutAll(rules, sels[..n], c);
      TableOfPut(PutAll(rules, sels[..n], c), sels[n], c);
      assert sels == sels[..n] + [sels[n]];
      SetAfterUniform(TableOf(rules), sels[..n], sels[n], c);
    }
  }

  /** One more selector registered: the prefix's registrations, then that one. */
  lemma PutAllStep(rules: seq<Rule>, sels: seq<Selector>, i: nat, c: Converter)
    requires i < |sels|
    ensures PutAll(rules, sels[..i + 1], c) == Put(PutAll(rules, sels[..i], c), sels[i], c)
  {
    assert sels[..i + 1][..i] == sels[..i];
  }

  /** `addRule(key, c)` lays the key's table over the old one. */
  lemma TableOfAddKey(rules: seq<Rule>, key: string, c: Converter)
    ensures TableOf(AddKey(rules, key, c)) == TableOf(rules) + KeyTable(key, c)
  {
    TableOfPutAll(rules, ParseKey(key), c);
  }

  /** Mixing is a plain key-level overwrite: the source's keys replace the receiver's. */
  lemma {:induction false} TableOfPutEntries(rules: seq<Rule>, src: seq<Rule>)
    ensures TableOf(PutEntries(rules, src)) == TableOf(rules) + TableOf(src)
    decreases |src|
  {
    if src == [] {
      assert TableOf(rules) + map[] == TableOf(rules);
    } else {
      var n := |src| - 1;
      var e := src[n];
      TableOfPutEntries(rules, src[..n]);
      TableOfPut(PutEntries(rules, src[..n]), e.selector, e.converter);
      assert src == src[..n] + [e];
      TableOfConcat(src[..n], [e]);
      TableOfSingle(e);
      SetAfterUnion(TableOf(rules), TableOf(src[..n]), e.selector, e.converter);
    }
  }

  lemma {:induction false} WithoutKeysConcat(a: seq<Rule>, b: seq<Rule>, ks: set<Selector>)
    ensures WithoutKeys(a + b, ks) == WithoutKeys(a, ks) + WithoutKeys(b, ks)
  {
    if a == [] {
      assert a + b == b;
    } else {
      assert (a + b)[1..] == a[1..] + b;
      WithoutKeysConcat(a[1..], b, ks);
    }
  }

  lemma {:induction false} WithoutKeysTwice(rules: seq<Rule>, k1: set<Selector>, k2: set<Selector>)
    ensures WithoutKeys(WithoutKeys(rules, k1), k2) == WithoutKeys(rules, k1 + k2)
  {
    if rules != [] {
      WithoutKeysTwice(rules[1..], k1, k2);
      var h := rules[0];
      var w := WithoutKeys(rules[1..], k1);
      if h.selector !in k1 {
        assert WithoutKeys(rules, k1) == [h] + w;
        assert ([h] + w)[1..] == w;
      } else {
        assert WithoutKeys(rules, k1) == w;
      }
    }
  }

  lemma {:induction false} WithoutKeysNone(rules: seq<Rule>, ks: set<Selector>)
    requires forall i :: 0 <= i < |rules| ==> rules[i].selector !in ks
    ensures WithoutKeys(rules, ks) == rules
  {
    if rules != [] {
      WithoutKeysNone(rules[1..], ks);
    }
  }

  lemma {:induction false} WithoutKeysAll(rules: seq<Rule>, ks: set<Selector>)
    requires forall i :: 0 <= i < |rules| ==> rules[i].selector in ks
    ensures WithoutKeys(rules, ks) == []
  {
    if rules != [] {
      WithoutKeysAll(rules[1..], ks);
    }
  }

  lemma WithoutOwnKeys(rules: seq<Rule>)
    ensures WithoutKeys(rules, Keys(rules)) == []
  {
    forall i | 0 <= i < |rules| ensures rules[i].selector in Keys(rules) {
      InKeys(rules, i);
    }
    WithoutKeysAll(rules, Keys(rules));
  }

  /**
    Mixing in a table with distinct keys leaves the receiver's other entries
    in their order, followed by the source's entries in theirs.
  */
  lemma {:induction false} PutEntriesClosedForm(rules: seq<Rule>, src: seq<Rule>)
    requires DistinctKeys(src)
    ensures PutEntries(rules, src) == WithoutKeys(rules, Keys(src)) + src
    decreases |src|
  {
    if src == [] {
      WithoutKeysNone(rules, {});
    } else {
      var n := |src| - 1;
      var init := src[..n];
      assert DistinctKeys(init);
      PutEntriesClosedForm(rules, init);
      ClosedFormStep(rules, init, src[n]);
      assert init + [src[n]] == src;
    }
  }

  lemma ClosedFormStep(rules: seq<Rule>, init: seq<Rule>, e: Rule)
    requires PutEntries(rules, init) == WithoutKeys(rules, Keys(init)) + init
    requires forall i :: 0 <= i < |init| ==> init[i].selector != e.selector
    ensures Put(PutEntries(rules, init), e.selector, e.converter)
              == WithoutKeys(rules, Keys(init) + {e.selector}) + (init + [e])
  {
    var k := e.selector;
    var base := WithoutKeys(rules, Keys(init));
    WithoutKeysConcat(base, init, {k});
    WithoutKeysTwice(rules, Keys(init), {k});
    WithoutKeysNone(init, {k});
  }

  /** Mixing the same source twice leaves the table as mixing it once. */
  lemma MixIdempotent(rules: seq<Rule>, src: seq<Rule>)
    requires DistinctKeys(src)
    ensures PutEntries(PutEntries(rules, src), src) == PutEntries(rules, src)
  {
    var ks := Keys(src);
    var kept := WithoutKeys(rules, ks);
    var once := kept + src;
    PutEntriesClosedForm(rules, src);
    PutEntriesClosedForm(once, src);
    WithoutKeysConcat(kept, src, ks);
    WithoutKeysTwice(rules, ks, ks);
    assert ks + ks == ks;
    assert WithoutKeys(kept, ks) == kept;
    WithoutOwnKeys(src);
    assert WithoutKeys(once, ks) == kept + [];
    assert kept + [] == kept;
  }

  /** Comma expansion: registering `"A,B"` is registering `A` and then `B`. */
  lemma AddKeyComma(rules: seq<Rule>, a: string, b: string, c: Converter)
    ensures AddKey(rules, a + "," + b, c) == AddKey(AddKey(rules, a, c), b, c)
  {
    CommaExpansion(a, b);
    PutAllConcat(rules, ParseKey(a), ParseKey(b), c);
  }

  lemma {:induction false} PutAllConcat(rules: seq<Rule>, s1: seq<Selector>, s2: seq<Selector>, c: Converter)
    ensures PutAll(rules, s1 + s2, c) == PutAll(PutAll(rules, s1, c), s2, c)
    decreases |s2|
  {
    if s2 == [] {
      assert s1 + s2 == s1;
    } else {
      var n := |s2| - 1;
      assert (s1 + s2)[..|s1 + s2| - 1] == s1 + s2[..n];
      PutAllConcat(rules, s1, s2[..n], c);
    }
  }

  /** What one `addRule(key, c)` means: every selector the key lists, mapped to `c`. */
  function KeyTable(key: string, c: Converter): (m: map<Selector, Converter>)
    ensures forall s :: s in m <==> s in ParseKey(key)
    ensures forall s :: s in m ==> m[s] == c
  {
    map s | s in ParseKey(key) :: c
  }

  /**
    What the factory's options mean: each option's key, in order, maps every
    selector it lists to that option's converter, overriding earlier ones.
  */
  function OptionsTable(m: map<Selector, Converter>, options: seq<(string, Converter)>): (t: map<Selector, Converter>)
    decreases |options|
  {
    if options == [] then m
    else
      var o := options[|options| - 1];
      OptionsTable(m, options[..|options| - 1]) + KeyTable(o.0, o.1)
  }

  /** Registering the options on a table gives the options' meaning on top of the table's. */
  lemma {:induction false} TableOfAddOptions(rules: seq<Rule>, options: seq<(string, Converter)>)
    ensures TableOf(AddOptions(rules, options)) == OptionsTable(TableOf(rules), options)
    decreases |options|
  {
    if options != [] {
      var n := |options| - 1;
      TableOfAddOptions(rules, options[..n]);
      TableOfPutAll(AddOptions(rules, options[..n]), ParseKey(options[n].0), options[n].1);
    }
  }

  // ---------------------------------------------------------------------
  // Choosing the rule for a node

  /**
    Entry `i` is the rule chosen for `node`: it matches, no matching entry
    is more specific, and no later matching entry is as specific (among
    equally specific matches the most recently registered key wins).
  */
  ghost predicate Wins(rules: seq<Rule>, node: Node, i: int) {
    && 0 <= i < |rules|
    && Matches(rules[i].selector, node)
    && (forall j :: 0 <= j < |rules| && Matches(rules[j].selector, node) ==>
          Specificity(rules[j].selector) <= Specificity(rules[i].selector))
    && (forall j :: i < j < |rules| && Matches(rules[j].selector, node) ==>
          Specificity(rules[j].selector) < Specificity(rules[i].selector))
  }

  /** At most one entry wins for a node. */
  lemma WinsUnique(rules: seq<Rule>, node: Node, w: int)
    requires Wins(rules, node, w)
    ensures forall i :: Wins(rules, node, i) ==> i == w
  {
  }

  /** The last entry wins when it matches and is at least as specific as the prefix's winner. */
  lemma WinsLast(rules: seq<Rule>, node: Node, prev: Option<nat>)
    requires |rules| > 0 && Matches(rules[|rules| - 1].selector, node)
    requires prev.Some? ==> Wins(rules[..|rules| - 1], node, prev.value)
    requires prev.None? ==> forall j :: 0 <= j < |rules| - 1 ==> !Matches(rules[j].selector, node)
    requires prev.Some? ==>
               Specificity(rules[prev.value].selector) <= Specificity(rules[|rules| - 1].selector)
    ensures Wins(rules, node, |rules| - 1)
  {
    var n := |rules| - 1;
    forall j | 0 <= j < |rules| && Matches(rules[j].selector, node)
      ensures Specificity(rules[j].selector) <= Specificity(rules[n].selector)
    {
      if j < n {
        assert rules[..n][j] == rules[j];
      }
    }
  }

  /** The prefix's winner stays when the last entry does not beat it. */
  lemma WinsKept(rules: seq<Rule>, node: Node, p: nat)
    requires |rules| > 0 && Wins(rules[..|rules| - 1], node, p)
    requires Matches(rules[|rules| - 1].selector, node) ==>
               Specificity(rules[|rules| - 1].selector) < Specificity(rules[p].selector)
    ensures Wins(rules, node, p)
  {
    var n := |rules| - 1;
    assert rules[..n][p] == rules[p];
    forall j | 0 <= j < n && Matches(rules[j].selector, node)
      ensures Specificity(rules[j].selector) <= Specificity(rules[p].selector)
    {
      assert rules[..n][j] == rules[j];
    }
    forall j | p < j < n && Matches(rules[j].selector, node)
      ensures Specificity(rules[j].selector) < Specificity(rules[p].selector)
    {
      assert rules[..n][j] == rules[j];
    }
  }

  /**
    A linear scan of the table keeping the most specific match so far. The
    result is the winning entry, the only one, and it is absent exactly
    when no entry matches.
  */
  function BestMatch(rules: seq<Rule>, node: Node): (r: Option<nat>)
    ensures r.Some? ==> Wins(rules, node, r.value)
    ensures r.Some? ==> forall i :: Wins(rules, node, i) ==> i == r.value
    ensures r.None? <==> forall j :: 0 <= j < |rules| ==> !Matches(rules[j].selector, node)
    decreases |rules|
  {
    if rules == [] then None
    else
      var n := |rules| - 1;
      var prev := BestMatch(rules[..n], node);
      assert prev.None? ==> forall j :: 0 <= j < n ==> !Matches(rules[j].selector, node) by {
        if prev.None? {
          forall j | 0 <= j < n ensures !Matches(rules[j].selector, node) {
            assert rules[..n][j] == rules[j];
          }
        }
      }
      if Matches(rules[n].selector, node)
         && (prev.None? || Specificity(rules[prev.value].selector) <= Specificity(rules[n].selector))
      then
        WinsLast(rules, node, prev);
        WinsUnique(rules, node, n);
        Some(n)
      else if prev.Some? then
        WinsKept(rules, node, prev.value);
        WinsUnique(rules, node, prev.value);
        prev
      else
        prev
  }

  /**
    `convert(node, fallback)`: the chosen rule's text, or `fallback`
    unchanged when no rule matches or the chosen converter is falsy.
  */
  function ConvertWith(rules: seq<Rule>, node: Node, fallback: string): (r: string)
    ensures (forall j :: 0 <= j < |rules| ==> !Matches(rules[j].selector, node)) ==> r == fallback
    ensures forall i :: Wins(rules, node, i) && IsFalsy(rules[i].converter) ==> r == fallback
    ensures forall i :: Wins(rules, node, i) && !IsFalsy(rules[i].converter) ==>
              r == rules[i].converter.value
  {
    match BestMatch(rules, node)
    case None => fallback
    case Some(i) => if IsFalsy(rules[i].converter) then fallback else rules[i].converter.value
  }

  /** A selector has an entry in the table's meaning exactly when some entry carries it. */
  lemma {:induction false} TableOfKeys(rules: seq<Rule>)
    ensures forall k :: k in TableOf(rules) <==> exists i :: 0 <= i < |rules| && rules[i].selector == k
  {
    if rules != [] {
      TableOfKeys(rules[1..]);
      forall k | k in TableOf(rules) ensures exists i :: 0 <= i < |rules| && rules[i].selector == k {
        if k != rules[0].selector {
          assert TableOf(rules) == map[rules[0].selector := rules[0].converter] + TableOf(rules[1..]);
          assert k in TableOf(rules[1..]);
          var i :| 0 <= i < |rules[1..]| && rules[1..][i].selector == k;
          assert rules[i + 1].selector == k;
        }
      }
      forall k | exists i :: 0 <= i < |rules| && rules[i].selector == k ensures k in TableOf(rules) {
        var i :| 0 <= i < |rules| && rules[i].selector == k;
        if i > 0 {
          assert rules[1..][i - 1].selector == k;
        }
      }
    }
  }

  /** With distinct keys, the table's meaning gives each entry's own converter. */
  lemma {:induction false} TableOfAt(rules: seq<Rule>, i: int)
    requires DistinctKeys(rules) && 0 <= i < |rules|
    ensures rules[i].selector in TableOf(rules)
    ensures TableOf(rules)[rules[i].selector] == rules[i].converter
  {
    var tail := rules[1..];
    TableOfKeys(tail);
    if i > 0 {
      assert DistinctKeys(tail);
      assert tail[i - 1] == rules[i];
      TableOfAt(tail, i - 1);
    }
  }

  /**
    Convert is decided by the table's meaning: when one matching key is
    strictly more specific than every other matching key, its converter
    decides the result, wherever its entry stands.
  */
  lemma ConvertByTable(rules: seq<Rule>, node: Node, fallback: string, k: Selector)
    requires DistinctKeys(rules)
    requires k in TableOf(rules) && Matches(k, node)
    requires forall k' :: k' in TableOf(rules) && k' != k && Matches(k', node) ==>
               Specificity(k') < Specificity(k)
    ensures ConvertWith(rules, node, fallback) ==
              if IsFalsy(TableOf(rules)[k]) then fallback else TableOf(rules)[k].value
  {
    TableOfKeys(rules);
    var i :| 0 <= i < |rules| && rules[i].selector == k;
    forall j | 0 <= j < |rules| && Matches(rules[j].selector, node)
      ensures Specificity(rules[j].selector) <= Specificity(k)
      ensures j != i ==> Specificity(rules[j].selector) < Specificity(k)
    {
      assert rules[j].selector in TableOf(rules);
    }
    assert Wins(rules, node, i);
    TableOfAt(rules, i);
  }

  /** When no key of the table matches, convert gives the fallback back. */
  lemma ConvertNoMatch(rules: seq<Rule>, node: Node, fallback: string)
    requires forall k :: k in TableOf(rules) ==> !Matches(k, node)
    ensures ConvertWith(rules, node, fallback) == fallback
  {
    TableOfKeys(rules);
    forall j | 0 <= j < |rules| ensures !Matches(rules[j].selector, node) {
      assert rules[j].selector in TableOf(rules);
    }
  }

  /** `k` is a key of `m` that matches the node and beats every other matching key. */
  ghost predicate MostSpecificKey(m: map<Selector, Converter>, node: Node, k: Selector) {
    && k in m && Matches(k, node)
    && forall k' :: k' in m && k' != k && Matches(k', node) ==> Specificity(k') < Specificity(k)
  }

  /**
    Convert read through the table's meaning: no matching key gives the
    fallback, and a strictly most specific matching key decides.
  */
  lemma ConvertFollowsTable(rules: seq<Rule>, node: Node, fallback: string)
    ensures (forall k :: k in TableOf(rules) ==> !Matches(k, node)) ==>
              ConvertWith(rules, node, fallback) == fallback
    ensures DistinctKeys(rules) ==> forall k :: MostSpecificKey(TableOf(rules), node, k) ==>
              ConvertWith(rules, node, fallback) ==
                if IsFalsy(TableOf(rules)[k]) then fallback else TableOf(rules)[k].value
  {
    if forall k :: k in TableOf(rules) ==> !Matches(k, node) {
      ConvertNoMatch(rules, node, fallback);
    }
    if DistinctKeys(rules) {
      forall k | MostSpecificKey(TableOf(rules), node, k)
        ensures ConvertWith(rules, node, fallback) ==
                  if IsFalsy(TableOf(rules)[k]) then fallback else TableOf(rules)[k].value
      {
        ConvertByTable(rules, node, fallback, k);
      }
    }
  }

  /**
    The document root has no ancestors, so only its own single-tag key can
    match it: that key's converter decides, and without one the fallback
    comes back.
  */
  lemma ConvertRoot(rules: seq<Rule>, node: Node, fallback: string)
    requires DistinctKeys(rules) && node.ancestors == []
    ensures var k := [RuleName(node)];
      ConvertWith(rules, node, fallback) ==
        if k in TableOf(rules) && !IsFalsy(TableOf(rules)[k]) then TableOf(rules)[k].value else fallback
  {
    var k := [RuleName(node)];
    forall k' ensures Matches(k', node) <==> k' == k {
      RootMatchesSingleTokenOnly(k', node);
    }
    if k in TableOf(rules) {
      ConvertByTable(rules, node, fallback, k);
    } else {
      ConvertNoMatch(rules, node, fallback);
    }
  }

  lemma {:induction false} PutEntriesValid(rules: seq<Rule>, src: seq<Rule>)
    requires DistinctKeys(rules) && AllWellFormed(rules) && AllWellFormed(src)
    ensures DistinctKeys(PutEntries(rules, src)) && AllWellFormed(PutEntries(rules, src))
    decreases |src|
  {
    if src != [] {
      var n := |src| - 1;
      PutEntriesValid(rules, src[..n]);
      PutValid(PutEntries(rules, src[..n]), src[n].selector, src[n].converter);
    }
  }

  /**
    Specificity beats registration order: a matching entry loses to any
    matching entry with more tokens, wherever the two stand in the table.
  */
  lemma MoreSpecificBeats(rules: seq<Rule>, node: Node, i: nat, j: nat)
    requires i < |rules| && j < |rules|
    requires Matches(rules[i].selector, node) && Matches(rules[j].selector, node)
    requires Specificity(rules[i].selector) < Specificity(rules[j].selector)
    ensures BestMatch(rules, node) != Some(i)
  {
  }

  /**
    The entry just registered is chosen for a node it matches when no
    entry left in the table is more specific for that node.
  */
  lemma PutWins(rules: seq<Rule>, sel: Selector, c: Converter, node: Node)
    requires Matches(sel, node)
    requires forall i :: 0 <= i < |rules| && Matches(rules[i].selector, node) ==>
               Specificity(rules[i].selector) <= Specificity(sel)
    ensures Wins(Put(rules, sel, c), node, |Put(rules, sel, c)| - 1)
  {
    var p := Put(rules, sel, c);
    var w := WithoutKeys(rules, {sel});
    forall j | 0 <= j < |p| && Matches(p[j].selector, node)
      ensures Specificity(p[j].selector) <= Specificity(sel)
    {
      if j < |w| {
        assert p[j] == w[j];
        assert w[j] in rules;
      }
    }
  }
}
