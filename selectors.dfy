/**
  Selectors and how a node is matched against one.

  A selector key such as "P DIV H3" is read as an ancestor chain: the last
  token names the node's own tag, every earlier token must name some
  enclosing element, in order from the outside in, with any number of
  other elements allowed in between. A raw key may list several chains
  separated by commas ("H1, H2"); each becomes a rule of its own.
*/
module Selectors {
  import opened Text

  /**
    A node as the renderer sees it: an element with its tag name, or a
    text node, together with the tag names of the elements around it,
    innermost first. The document root the parser wraps around the markup
    is not among them.
  */
  datatype Node =
    | Element(tagName: string, ancestors: seq<string>)
    | TextNode(ancestors: seq<string>)

  /** The rule name reserved for text nodes. */
  const TextNodeRule: string := "TEXT_NODE"

  /** The name a node is looked up by: its tag, or `TEXT_NODE` for text. */
  function RuleName(n: Node): (name: string) {
    match n
    case Element(tag, _) => tag
    case TextNode(_) => TextNodeRule
  }

  /** A parsed selector: tag tokens from the outermost to the target. */
  type Selector = seq<string>

  predicate WellFormedToken(t: string) {
    t != [] && forall c :: c in Whitespace ==> c !in t
  }

  /** A selector that can come out of parsing: at least one token, none blank. */
  predicate WellFormed(sel: Selector) {
    sel != [] && forall i :: 0 <= i < |sel| ==> WellFormedToken(sel[i])
  }

  /** The non-empty pieces, in order. */
  function NonEmpty(pieces: seq<string>): (r: seq<string>)
    ensures forall i :: 0 <= i < |r| ==> r[i] != [] && r[i] in pieces
    ensures forall p :: p in pieces && p != [] ==> p in r
  {
    if pieces == [] then []
    else if pieces[0] == [] then NonEmpty(pieces[1..])
    else [pieces[0]] + NonEmpty(pieces[1..])
  }

  /** The tokens of one comma-free piece of a key: blank-separated, blanks dropped. */
  function Tokens(piece: string): (r: Selector)
    ensures forall i :: 0 <= i < |r| ==> WellFormedToken(r[i])
  {
    NonEmpty(Split(piece, Whitespace))
  }

  /** The selectors of a list of comma-separated pieces; blank pieces are dropped. */
  function SelectorsOf(pieces: seq<string>): (r: seq<Selector>)
    ensures forall i :: 0 <= i < |r| ==> WellFormed(r[i])
  {
    if pieces == [] then []
    else
      var t := Tokens(pieces[0]);
      (if t == [] then [] else [t]) + SelectorsOf(pieces[1..])
  }

  /**
    Registration-time expansion of a raw key: split at commas, each piece
    taken apart into tokens, pieces without a token ignored.
  */
  function ParseKey(key: string): (r: seq<Selector>)
    ensures forall i :: 0 <= i < |r| ==> WellFormed(r[i])
    ensures forall i, j :: 0 <= i < |r| && 0 <= j < |r[i]| ==> ',' !in r[i][j]
  {
    var pieces := Split(key, {','});
    SelectorsOfNoComma(pieces);
    SelectorsOf(pieces)
  }

  lemma {:induction false} SelectorsOfNoComma(pieces: seq<string>)
    requires forall i :: 0 <= i < |pieces| ==> ',' !in pieces[i]
    ensures forall i, j :: 0 <= i < |SelectorsOf(pieces)| && 0 <= j < |SelectorsOf(pieces)[i]|
              ==> ',' !in SelectorsOf(pieces)[i][j]
  {
    if pieces != [] {
      SelectorsOfNoComma(pieces[1..]);
      var t := Tokens(pieces[0]);
      forall j | 0 <= j < |t| ensures ',' !in t[j] {
        assert t[j] in Split(pieces[0], Whitespace);
        TokenInPiece(pieces[0], Whitespace, t[j]);
      }
    }
  }

  /** Every character of a piece of `Split(s, seps)` is a character of `s`. */
  lemma {:induction false} TokenInPiece(s: string, seps: set<char>, p: string)
    requires p in Split(s, seps)
    ensures forall c :: c in p ==> c in s
    decreases |s|
  {
    if s != [] {
      var rest := Split(s[1..], seps);
      if s[0] in seps {
        if p != "" {
          assert p in rest;
          TokenInPiece(s[1..], seps, p);
        }
      } else if p == [s[0]] + rest[0] {
        TokenInPiece(s[1..], seps, rest[0]);
      } else {
        assert p in rest[1..];
        TokenInPiece(s[1..], seps, p);
      }
    }
  }

  lemma {:induction false} SelectorsOfConcat(a: seq<string>, b: seq<string>)
    ensures SelectorsOf(a + b) == SelectorsOf(a) + SelectorsOf(b)
  {
    if a == [] {
      assert a + b == b;
    } else {
      assert (a + b)[1..] == a[1..] + b;
      SelectorsOfConcat(a[1..], b);
    }
  }

  /**
    Comma expansion: `"A,B"` registers exactly the selectors of `A`
    followed by those of `B`.
  */
  lemma CommaExpansion(a: string, b: string)
    ensures ParseKey(a + "," + b) == ParseKey(a) + ParseKey(b)
  {
    SplitConcat(a, ',', b, {','});
    SelectorsOfConcat(Split(a, {','}), Split(b, {','}));
  }

  lemma {:induction false} NonEmptyConcat(a: seq<string>, b: seq<string>)
    ensures NonEmpty(a + b) == NonEmpty(a) + NonEmpty(b)
  {
    if a == [] {
      assert a + b == b;
    } else {
      assert (a + b)[1..] == a[1..] + b;
      NonEmptyConcat(a[1..], b);
    }
  }

  /** A single blank-free word is one token. */
  lemma TokensOfWord(w: string)
    requires WellFormedToken(w)
    ensures Tokens(w) == [w]
  {
    forall k | 0 <= k < |w| ensures w[k] !in Whitespace {
      assert w[k] in w;
    }
    SplitNoSeparator(w, Whitespace);
    assert [w][1..] == [];
    assert NonEmpty([w]) == [w] + NonEmpty([]);
  }

  /** Blanks separate tokens; runs of blanks and blanks at either end produce none. */
  lemma TokensAtBlank(a: string, c: char, b: string)
    requires c in Whitespace
    ensures Tokens(a + [c] + b) == Tokens(a) + Tokens(b)
  {
    SplitConcat(a, c, b, Whitespace);
    NonEmptyConcat(Split(a, Whitespace), Split(b, Whitespace));
  }

  /** Words joined by single spaces are read back as exactly those tokens. */
  lemma {:induction false} TokensOfJoin(ws: seq<string>)
    requires |ws| >= 1
    requires forall i :: 0 <= i < |ws| ==> WellFormedToken(ws[i])
    ensures Tokens(Join(ws, ' ')) == ws
    decreases |ws|
  {
    if |ws| == 1 {
      TokensOfWord(ws[0]);
    } else {
      TokensOfJoin(ws[1..]);
      TokensOfWord(ws[0]);
      TokensAtBlank(ws[0], ' ', Join(ws[1..], ' '));
    }
  }

  /** A key without commas is one selector, or none when it is blank. */
  lemma ParseKeyOfPiece(piece: string)
    requires ',' !in piece
    ensures ParseKey(piece) == if Tokens(piece) == [] then [] else [Tokens(piece)]
  {
    forall k | 0 <= k < |piece| ensures piece[k] !in {','} {
      assert piece[k] in piece;
    }
    SplitNoSeparator(piece, {','});
    assert [piece][1..] == [];
    assert SelectorsOf([piece]) == (if Tokens(piece) == [] then [] else [Tokens(piece)]) + SelectorsOf([]);
  }

  /** A chain of words joined by single spaces parses as that one selector. */
  lemma ParseKeyOfChain(ws: seq<string>)
    requires |ws| >= 1
    requires forall i :: 0 <= i < |ws| ==> WellFormedToken(ws[i]) && ',' !in ws[i]
    ensures ParseKey(Join(ws, ' ')) == [ws]
  {
    TokensOfJoin(ws);
    JoinNoComma(ws);
    ParseKeyOfPiece(Join(ws, ' '));
  }

  lemma {:induction false} JoinNoComma(ws: seq<string>)
    requires |ws| >= 1
    requires forall i :: 0 <= i < |ws| ==> ',' !in ws[i]
    ensures ',' !in Join(ws, ' ')
    decreases |ws|
  {
    if |ws| > 1 {
      JoinNoComma(ws[1..]);
    }
  }

  /** A word after one blank, as in the later parts of "H1, H2", parses as that word. */
  lemma ParseKeyOfPaddedWord(w: string)
    requires WellFormedToken(w) && ',' !in w
    ensures ParseKey(" " + w) == [[w]]
  {
    TokensAtBlank("", ' ', w);
    assert "" + [' '] + w == " " + w;
    TokensOfWord(w);
    assert Tokens("") == [];
    ParseKeyOfPiece(" " + w);
  }

  /** A key listing single tags, each after the first preceded by ", ". */
  function ListKey(tags: seq<string>): (key: string)
    requires |tags| >= 1
  {
    if |tags| == 1 then tags[0] else ListKey(tags[..|tags| - 1]) + "," + " " + tags[|tags| - 1]
  }

  /** One single-token selector per tag, in order. */
  function Singles(tags: seq<string>): (r: seq<Selector>)
    ensures |r| == |tags| && forall i :: 0 <= i < |tags| ==> r[i] == [tags[i]]
  {
    if tags == [] then [] else Singles(tags[..|tags| - 1]) + [[tags[|tags| - 1]]]
  }

  /**
    A comma-separated list of tags, as in "H1, H2, H3", expands into one
    single-tag selector per tag, in the order written.
  */
  lemma {:induction false} ParseKeyOfList(tags: seq<string>)
    requires |tags| >= 1
    requires forall i :: 0 <= i < |tags| ==> WellFormedToken(tags[i]) && ',' !in tags[i]
    ensures ParseKey(ListKey(tags)) == Singles(tags)
  {
    if |tags| == 1 {
      ParseKeyOfChain(tags);
      assert Join(tags, ' ') == tags[0];
      assert tags == [tags[0]];
    } else {
      var w := tags[|tags| - 1];
      ParseKeyOfList(tags[..|tags| - 1]);
      assert ListKey(tags) == ListKey(tags[..|tags| - 1]) + "," + (" " + w);
      CommaExpansion(ListKey(tags[..|tags| - 1]), " " + w);
      ParseKeyOfPaddedWord(w);
    }
  }

  // ---------------------------------------------------------------------
  // Matching

  /**
    The outward scan over the ancestors: `want` lists still-unmatched
    tokens from the outside in, `ancestors` the remaining ancestors from
    the inside out. An ancestor equal to the innermost wanted token
    consumes it; any other ancestor is skipped. Each wanted token needs an
    ancestor of its own, so the scan can only succeed when there are at
    least as many ancestors as wanted tokens.
  */
  function FoundInOrder(want: seq<string>, ancestors: seq<string>): (b: bool)
    ensures b ==> |want| <= |ancestors|
    decreases |ancestors|
  {
    if want == [] then true
    else if ancestors == [] then false
    else if ancestors[0] == want[|want| - 1] then FoundInOrder(want[..|want| - 1], ancestors[1..])
    else FoundInOrder(want, ancestors[1..])
  }

  /**
    A placement of the wanted tokens among the ancestors: token `k` sits at
    ancestor `idx[k]`, and outer tokens sit at strictly outer ancestors.
  */
  ghost predicate Placement(idx: seq<int>, want: seq<string>, ancestors: seq<string>) {
    && |idx| == |want|
    && (forall k :: 0 <= k < |idx| ==> 0 <= idx[k] < |ancestors| && ancestors[idx[k]] == want[k])
    && (forall k :: 0 < k < |idx| ==> idx[k] < idx[k - 1])
  }

  /** The declarative reading: the wanted tokens occur among the ancestors in order. */
  ghost predicate OccursInOrder(want: seq<string>, ancestors: seq<string>) {
    exists idx :: Placement(idx, want, ancestors)
  }

  function Shift(idx: seq<int>, d: int): (r: seq<int>)
    ensures |r| == |idx| && forall k :: 0 <= k < |idx| ==> r[k] == idx[k] + d
  {
    seq(|idx|, k requires 0 <= k < |idx| => idx[k] + d)
  }

  lemma {:induction false} FoundInOrderSound(want: seq<string>, ancestors: seq<string>)
    requires FoundInOrder(want, ancestors)
    ensures OccursInOrder(want, ancestors)
    decreases |ancestors|
  {
    if want == [] {
      assert Placement([], want, ancestors);
    } else {
      var n := |want| - 1;
      if ancestors[0] == want[n] {
        FoundInOrderSound(want[..n], ancestors[1..]);
        var idx :| Placement(idx, want[..n], ancestors[1..]);
        PlacementInnermost(idx, want, ancestors);
      } else {
        FoundInOrderSound(want, ancestors[1..]);
        var idx :| Placement(idx, want, ancestors[1..]);
        PlacementOuter(idx, want, ancestors);
      }
    }
  }

  /** A placement among the outer ancestors, with the innermost token at the parent. */
  lemma PlacementInnermost(idx: seq<int>, want: seq<string>, ancestors: seq<string>)
    requires want != [] && ancestors != [] && ancestors[0] == want[|want| - 1]
    requires Placement(idx, want[..|want| - 1], ancestors[1..])
    ensures Placement(Shift(idx, 1) + [0], want, ancestors)
  {
  }

  /** A placement among the outer ancestors is one among all of them. */
  lemma PlacementOuter(idx: seq<int>, want: seq<string>, ancestors: seq<string>)
    requires ancestors != [] && Placement(idx, want, ancestors[1..])
    ensures Placement(Shift(idx, 1), want, ancestors)
  {
  }

  lemma {:induction false} FoundInOrderComplete(want: seq<string>, ancestors: seq<string>, idx: seq<int>)
    requires Placement(idx, want, ancestors)
    ensures FoundInOrder(want, ancestors)
    decreases |ancestors|
  {
    if want != [] {
      var n := |want| - 1;
      assert 0 <= idx[n] < |ancestors|;
      // the innermost wanted token sits at the smallest index
      assert forall k :: 0 <= k <= n ==> idx[n] <= idx[k] by {
        forall k | 0 <= k <= n ensures idx[n] <= idx[k] {
          DecreasingBelow(idx, k, n);
        }
      }
      if ancestors[0] == want[n] {
        var idx' := Shift(idx[..n], -1);
        forall k | 0 <= k < n ensures 0 <= idx'[k] {
          DecreasingBelow(idx, k, n);
        }
        assert Placement(idx', want[..n], ancestors[1..]);
        FoundInOrderComplete(want[..n], ancestors[1..], idx');
      } else {
        assert idx[n] != 0;
        var idx' := Shift(idx, -1);
        assert Placement(idx', want, ancestors[1..]);
        FoundInOrderComplete(want, ancestors[1..], idx');
      }
    }
  }

  lemma {:induction false} DecreasingBelow(idx: seq<int>, k: int, n: int)
    requires 0 <= k <= n < |idx|
    requires forall j :: 0 < j < |idx| ==> idx[j] < idx[j - 1]
    ensures idx[n] <= idx[k]
    ensures k < n ==> idx[n] < idx[k]
    decreases n - k
  {
    if k < n {
      DecreasingBelow(idx, k + 1, n);
    }
  }

  /** The outward scan finds exactly the ancestor chains that occur in order. */
  lemma FoundInOrderIff(want: seq<string>, ancestors: seq<string>)
    ensures FoundInOrder(want, ancestors) <==> OccursInOrder(want, ancestors)
  {
    if FoundInOrder(want, ancestors) {
      FoundInOrderSound(want, ancestors);
    }
    if OccursInOrder(want, ancestors) {
      var idx :| Placement(idx, want, ancestors);
      FoundInOrderComplete(want, ancestors, idx);
    }
  }

  /**
    Whether a selector matches a node: its last token is the node's rule
    name, and its other tokens are found among the ancestors in order.
    A selector of `n + 1` tokens needs at least `n` ancestors.
  */
  function Matches(sel: Selector, node: Node): (b: bool)
    ensures b ==> sel != [] && sel[|sel| - 1] == RuleName(node)
    ensures b ==> |sel| <= |node.ancestors| + 1
  {
    sel != [] && sel[|sel| - 1] == RuleName(node) && FoundInOrder(sel[..|sel| - 1], node.ancestors)
  }

  /** The specificity of a selector: its number of tokens. */
  function Specificity(sel: Selector): (s: nat) {
    |sel|
  }

  /**
    The root boundary: a node with no ancestors (an element right below the
    document root) is matched by single-token selectors only.
  */
  lemma RootMatchesSingleTokenOnly(sel: Selector, node: Node)
    requires node.ancestors == []
    ensures Matches(sel, node) <==> sel == [RuleName(node)]
  {
    if sel == [RuleName(node)] {
      assert sel[..0] == [];
    }
  }

  /** Descendant selection: an ancestor chain matches wherever its tokens occur, gaps allowed. */
  lemma MatchesIff(sel: Selector, node: Node)
    ensures Matches(sel, node) <==>
      sel != [] && sel[|sel| - 1] == RuleName(node) && OccursInOrder(sel[..|sel| - 1], node.ancestors)
  {
    if sel != [] {
      FoundInOrderIff(sel[..|sel| - 1], node.ancestors);
    }
  }
}
