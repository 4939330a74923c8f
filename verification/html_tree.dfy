/**
 * An already-parsed HTML document as BeautifulSoup presents it: a forest of
 * element and text nodes in document order, with the two searches and the
 * subtree removal (`decompose`) the content extractor uses.
 */
module HtmlTree {
  import opened Base

  /** A text node, or an element with its tag name, its `class` list and its children. */
  datatype Node =
    | Text(text: string)
    | Element(tag: string, classes: seq<string>, children: seq<Node>)

  /** What `find(tag, {'class': cls})` looks for; `cls` is absent for a bare tag name. */
  datatype Selector = Selector(tag: string, cls: Option<string>)

  /** An element with the selector's tag whose class list holds the selector's class. */
  predicate Matches(sel: Selector, n: Node) {
    n.Element? && n.tag == sel.tag && (sel.cls.Some? ==> sel.cls.value in n.classes)
  }

  /** Every node of the forest in document order: each node, then its descendants. */
  function Descendants(f: seq<Node>): seq<Node> {
    if f == [] then []
    else match f[0]
      case Text(_) => [f[0]] + Descendants(f[1..])
      case Element(_, _, cs) => [f[0]] + Descendants(cs) + Descendants(f[1..])
  }

  /** The strings of the text nodes among `ns`, in order. */
  function TextsOf(ns: seq<Node>): seq<string> {
    if ns == [] then []
    else (if ns[0].Text? then [ns[0].text] else []) + TextsOf(ns[1..])
  }

  /** The forest's text nodes in document order (`.strings` in bs4). */
  function Texts(f: seq<Node>): seq<string> {
    TextsOf(Descendants(f))
  }

  /** Number of nodes among `ns` that the selector matches. */
  function CountMatches(ns: seq<Node>, sel: Selector): nat {
    if ns == [] then 0
    else (if Matches(sel, ns[0]) then 1 else 0) + CountMatches(ns[1..], sel)
  }

  /** Position of the first node of `ns` the selector matches, or `|ns|` when none does. */
  function FirstMatchIndex(ns: seq<Node>, sel: Selector): (i: nat)
    ensures i <= |ns|
  {
    if ns == [] then 0
    else if Matches(sel, ns[0]) then 0
    else 1 + FirstMatchIndex(ns[1..], sel)
  }

  /** The index found matches, and no node before it does. */
  lemma {:induction false} FirstMatchIndexIsFirst(ns: seq<Node>, sel: Selector)
    ensures var i := FirstMatchIndex(ns, sel);
            && (forall j :: 0 <= j < i ==> !Matches(sel, ns[j]))
            && (i < |ns| ==> Matches(sel, ns[i]))
  {
    if ns != [] && !Matches(sel, ns[0]) {
      FirstMatchIndexIsFirst(ns[1..], sel);
      var i := FirstMatchIndex(ns, sel);
      forall j | 1 <= j < i ensures !Matches(sel, ns[j]) {
        assert ns[j] == ns[1..][j - 1];
      }
    }
  }

  // ---------------------------------------------------------------------------
  // Flat-sequence facts used by the tree proofs
  // ---------------------------------------------------------------------------

  lemma {:induction false} DescendantsAppend(a: seq<Node>, b: seq<Node>)
    ensures Descendants(a + b) == Descendants(a) + Descendants(b)
  {
    if a != [] {
      var x, r := a[0], a[1..];
      calc {
        Descendants(a + b);
      == { assert a + b == [x] + (r + b); DescendantsCons(x, r + b); }
        [x] + (Inside(x) + Descendants(r + b));
      == { DescendantsAppend(r, b); }
        [x] + (Inside(x) + (Descendants(r) + Descendants(b)));
      ==
        ([x] + (Inside(x) + Descendants(r))) + Descendants(b);
      == { assert a == [x] + r; DescendantsCons(x, r); }
        Descendants(a) + Descendants(b);
      }
    } else {
      assert a + b == b;
    }
  }

  /** The nodes strictly inside `x`, in document order. */
  function Inside(x: Node): seq<Node> {
    if x.Element? then Descendants(x.children) else []
  }

  /** The descendants of a forest are those of its first tree, then those of the rest. */
  lemma DescendantsCons(x: Node, r: seq<Node>)
    ensures Descendants([x] + r) == [x] + (Inside(x) + Descendants(r))
  {
    assert ([x] + r)[0] == x;
    assert ([x] + r)[1..] == r;
  }

  lemma {:induction false} TextsOfAppend(a: seq<Node>, b: seq<Node>)
    ensures TextsOf(a + b) == TextsOf(a) + TextsOf(b)
  {
    if a != [] {
      assert (a + b)[0] == a[0];
      assert (a + b)[1..] == a[1..] + b;
      TextsOfAppend(a[1..], b);
    } else {
      assert a + b == b;
    }
  }

  lemma {:induction false} CountMatchesAppend(a: seq<Node>, b: seq<Node>, sel: Selector)
    ensures CountMatches(a + b, sel) == CountMatches(a, sel) + CountMatches(b, sel)
  {
    if a != [] {
      assert (a + b)[0] == a[0];
      assert (a + b)[1..] == a[1..] + b;
      CountMatchesAppend(a[1..], b, sel);
    } else {
      assert a + b == b;
    }
  }

  lemma {:induction false} FirstMatchIndexAppend(a: seq<Node>, b: seq<Node>, sel: Selector)
    ensures FirstMatchIndex(a + b, sel) ==
      if FirstMatchIndex(a, sel) < |a| then FirstMatchIndex(a, sel) else |a| + FirstMatchIndex(b, sel)
  {
    if a != [] {
      assert (a + b)[0] == a[0];
      assert (a + b)[1..] == a[1..] + b;
      FirstMatchIndexAppend(a[1..], b, sel);
    } else {
      assert a + b == b;
    }
  }

  /** The texts of a forest: those of its first tree, then those of the rest. */
  lemma TextsCons(x: Node, r: seq<Node>)
    ensures Texts([x] + r) ==
      (if x.Text? then [x.text] else Texts(x.children)) + Texts(r)
  {
    DescendantsCons(x, r);
    var inner := Inside(x);
    TextsOfAppend([x], inner + Descendants(r));
    TextsOfAppend(inner, Descendants(r));
    assert TextsOf([x]) == (if x.Text? then [x.text] else []) by {
      assert [x][1..] == [];
    }
  }

  lemma TextsAppend(a: seq<Node>, b: seq<Node>)
    ensures Texts(a + b) == Texts(a) + Texts(b)
  {
    DescendantsAppend(a, b);
    TextsOfAppend(Descendants(a), Descendants(b));
  }

  // ---------------------------------------------------------------------------
  // find
  // ---------------------------------------------------------------------------

  /**
   * `find(...)` on a tag: the first matching node in a depth-first, pre-order
   * walk of the forest, or `None`.
   */
  function Find(f: seq<Node>, sel: Selector): (r: Option<Node>)
    ensures r.Some? ==> Matches(sel, r.value)
  {
    if f == [] then None
    else if Matches(sel, f[0]) then Some(f[0])
    else match f[0]
      case Text(_) => Find(f[1..], sel)
      case Element(_, _, cs) =>
        var inner := Find(cs, sel);
        if inner.Some? then inner else Find(f[1..], sel)
  }

  /** Searching a concatenation finds the first part's match if it has one, else the second part's. */
  lemma {:induction false} FindAppend(a: seq<Node>, b: seq<Node>, sel: Selector)
    ensures Find(a + b, sel) == if Find(a, sel).Some? then Find(a, sel) else Find(b, sel)
  {
    if a != [] {
      assert (a + b)[0] == a[0];
      assert (a + b)[1..] == a[1..] + b;
      FindAppend(a[1..], b, sel);
    } else {
      assert a + b == b;
    }
  }

  /** `Find` agrees with the first match of the flat document-order listing. */
  predicate FindsFirst(f: seq<Node>, sel: Selector) {
    var d := Descendants(f); var i := FirstMatchIndex(d, sel);
    Find(f, sel) == if i < |d| then Some(d[i]) else None
  }

  /**
   * The recursive search returns exactly the first match of the flat
   * document-order listing, and nothing when no node matches.
   */
  lemma {:induction false} FindIsFirstInDocumentOrder(f: seq<Node>, sel: Selector)
    ensures var d := Descendants(f); var i := FirstMatchIndex(d, sel);
            Find(f, sel) == if i < |d| then Some(d[i]) else None
  {
    if f != [] {
      var x, rest := f[0], f[1..];
      assert f == [x] + rest;
      FindIsFirstInDocumentOrder(rest, sel);
      if x.Element? {
        FindIsFirstInDocumentOrder(x.children, sel);
      }
      FindsFirstCons(x, rest, sel);
    }
  }

  lemma FindsFirstCons(x: Node, rest: seq<Node>, sel: Selector)
    requires FindsFirst(rest, sel)
    requires x.Element? ==> FindsFirst(x.children, sel)
    ensures FindsFirst([x] + rest, sel)
  {
    if Matches(sel, x) {
      FindsFirstAtRoot(x, rest, sel);
    } else if x.Text? {
      FindsFirstAfterText(x, rest, sel);
    } else {
      FindsFirstInChildren(x, rest, sel);
      FirstIndexPastRoot(x, rest, sel);
    }
  }

  /** Past a non-matching root, the first match of the listing is the first match among its descendants and the rest. */
  lemma FirstIndexPastRoot(x: Node, rest: seq<Node>, sel: Selector)
    requires !Matches(sel, x)
    ensures var inner := Inside(x);
            var it := inner + Descendants(rest);
            var d := Descendants([x] + rest);
            var j := FirstMatchIndex(it, sel);
            |d| == 1 + |it| && FirstMatchIndex(d, sel) == 1 + j && (j < |it| ==> d[1 + j] == it[j])
  {
    var inner := Inside(x);
    var it := inner + Descendants(rest);
    assert Descendants([x] + rest) == [x] + it by { DescendantsCons(x, rest); }
    FirstIndexPastHead(x, it, sel);
  }

  lemma FirstIndexPastHead(x: Node, it: seq<Node>, sel: Selector)
    requires !Matches(sel, x)
    ensures var j := FirstMatchIndex(it, sel);
            FirstMatchIndex([x] + it, sel) == 1 + j && (j < |it| ==> ([x] + it)[1 + j] == it[j])
  {
    var d := [x] + it;
    assert d[0] == x && d[1..] == it;
  }

  lemma FindsFirstAtRoot(x: Node, rest: seq<Node>, sel: Selector)
    requires Matches(sel, x)
    ensures FindsFirst([x] + rest, sel)
  {
    var f := [x] + rest;
    assert f[0] == x;
    DescendantsCons(x, rest);
    assert Descendants(f)[0] == x;
  }

  lemma FindsFirstAfterText(x: Node, rest: seq<Node>, sel: Selector)
    requires x.Text? && !Matches(sel, x) && FindsFirst(rest, sel)
    ensures FindsFirst([x] + rest, sel)
  {
    var f := [x] + rest;
    assert f[0] == x && f[1..] == rest;
    assert Find(f, sel) == Find(rest, sel);
    FirstIndexPastRoot(x, rest, sel);
    assert [] + Descendants(rest) == Descendants(rest);
  }

  /** The step of `FindsFirstCons` for a non-matching element: the search tries the children, then the rest. */
  lemma FindsFirstInChildren(x: Node, rest: seq<Node>, sel: Selector)
    requires x.Element? && !Matches(sel, x)
    requires FindsFirst(rest, sel) && FindsFirst(x.children, sel)
    ensures var inner, tail := Descendants(x.children), Descendants(rest);
            var j := FirstMatchIndex(inner + tail, sel);
            Find([x] + rest, sel) == if j < |inner + tail| then Some((inner + tail)[j]) else None
  {
    var f := [x] + rest;
    assert f[0] == x && f[1..] == rest;
    var inner, tail := Descendants(x.children), Descendants(rest);
    FirstMatchIndexAppend(inner, tail, sel);
    var ic := FirstMatchIndex(inner, sel);
    if ic < |inner| {
      assert (inner + tail)[ic] == inner[ic];
    } else {
      var it := FirstMatchIndex(tail, sel);
      if it < |tail| {
        assert (inner + tail)[|inner| + it] == tail[it];
      }
    }
  }

  /** A forest in which the selector matches nothing at any depth. */
  predicate NoMatch(f: seq<Node>, sel: Selector) {
    forall j :: 0 <= j < |Descendants(f)| ==> !Matches(sel, Descendants(f)[j])
  }

  // ---------------------------------------------------------------------------
  // decompose every match (`for e in tag.find_all(...): e.decompose()`)
  // ---------------------------------------------------------------------------

  /** The forest with every subtree rooted at a matching element removed. */
  function RemoveAll(f: seq<Node>, sel: Selector): seq<Node> {
    if f == [] then []
    else
      var rest := RemoveAll(f[1..], sel);
      match f[0]
      case Text(_) => [f[0]] + rest
      case Element(t, c, cs) =>
        if Matches(sel, f[0]) then rest else [Element(t, c, RemoveAll(cs, sel))] + rest
  }

  /** Removing matches works node by node: the forest's parts are cleaned separately. */
  lemma {:induction false} RemoveAllAppend(a: seq<Node>, b: seq<Node>, sel: Selector)
    ensures RemoveAll(a + b, sel) == RemoveAll(a, sel) + RemoveAll(b, sel)
  {
    if a != [] {
      assert (a + b)[0] == a[0];
      assert (a + b)[1..] == a[1..] + b;
      RemoveAllAppend(a[1..], b, sel);
    } else {
      assert a + b == b;
    }
  }

  /** A text node is kept as it is. */
  lemma RemoveAllKeepsText(t: string, sel: Selector)
    ensures RemoveAll([Text(t)], sel) == [Text(t)]
  {
    assert [Text(t)][1..] == [];
  }

  /** A matching element goes with everything inside it. */
  lemma RemoveAllDropsMatch(x: Node, sel: Selector)
    requires x.Element? && Matches(sel, x)
    ensures RemoveAll([x], sel) == []
  {
    assert [x][1..] == [];
  }

  /**
   * An element that does not match stays, with its tag and classes, and only
   * the matches among its descendants are removed.
   */
  lemma RemoveAllKeepsOtherElement(tag: string, classes: seq<string>, cs: seq<Node>, sel: Selector)
    requires !Matches(sel, Element(tag, classes, cs))
    ensures RemoveAll([Element(tag, classes, cs)], sel) == [Element(tag, classes, RemoveAll(cs, sel))]
  {
    assert [Element(tag, classes, cs)][1..] == [];
  }

  /**
   * Every text node of the forest in document order, paired with whether it
   * lies inside a matching element at any depth (`under` says whether the
   * forest itself already lies inside one).
   */
  function MarkedTexts(f: seq<Node>, sel: Selector, under: bool): seq<(string, bool)> {
    if f == [] then []
    else
      var rest := MarkedTexts(f[1..], sel, under);
      match f[0]
      case Text(s) => [(s, under)] + rest
      case Element(_, _, cs) => MarkedTexts(cs, sel, under || Matches(sel, f[0])) + rest
  }

  /** The strings of the marked list, marks dropped. */
  function Strings(ms: seq<(string, bool)>): seq<string> {
    if ms == [] then [] else [ms[0].0] + Strings(ms[1..])
  }

  /** The strings whose mark is false, in order. */
  function Unmarked(ms: seq<(string, bool)>): seq<string> {
    if ms == [] then [] else (if ms[0].1 then [] else [ms[0].0]) + Unmarked(ms[1..])
  }

  lemma {:induction false} StringsAppend(a: seq<(string, bool)>, b: seq<(string, bool)>)
    ensures Strings(a + b) == Strings(a) + Strings(b)
  {
    if a != [] {
      assert (a + b)[1..] == a[1..] + b;
      StringsAppend(a[1..], b);
    } else {
      assert a + b == b;
    }
  }

  lemma {:induction false} UnmarkedAppend(a: seq<(string, bool)>, b: seq<(string, bool)>)
    ensures Unmarked(a + b) == Unmarked(a) + Unmarked(b)
  {
    if a != [] {
      assert (a + b)[1..] == a[1..] + b;
      UnmarkedAppend(a[1..], b);
    } else {
      assert a + b == b;
    }
  }

  /** The marking lists exactly the forest's text nodes, in document order. */
  lemma {:induction false} MarkedTextsListsAllTexts(f: seq<Node>, sel: Selector, under: bool)
    ensures Strings(MarkedTexts(f, sel, under)) == Texts(f)
  {
    if f != [] {
      var x, rest := f[0], f[1..];
      assert f == [x] + rest;
      TextsCons(x, rest);
      MarkedTextsListsAllTexts(rest, sel, under);
      match x
      case Text(s) =>
        StringsAppend([(s, under)], MarkedTexts(rest, sel, under));
      case Element(_, _, cs) =>
        MarkedTextsListsAllTexts(cs, sel, under || Matches(sel, x));
        StringsAppend(MarkedTexts(cs, sel, under || Matches(sel, x)), MarkedTexts(rest, sel, under));
    }
  }

  /** Inside a matching element every text is marked. */
  lemma {:induction false} MarkedUnderMatch(f: seq<Node>, sel: Selector)
    ensures Unmarked(MarkedTexts(f, sel, true)) == []
  {
    if f != [] {
      MarkedUnderMatch(f[1..], sel);
      match f[0]
      case Text(s) =>
        UnmarkedAppend([(s, true)], MarkedTexts(f[1..], sel, true));
      case Element(_, _, cs) =>
        MarkedUnderMatch(cs, sel);
        UnmarkedAppend(MarkedTexts(cs, sel, true), MarkedTexts(f[1..], sel, true));
    }
  }

  /**
   * Removing every matching subtree keeps exactly the text nodes that lie
   * outside all matching elements, in their original order.
   */
  lemma {:induction false} RemoveAllKeepsUnmarkedTexts(f: seq<Node>, sel: Selector)
    ensures Texts(RemoveAll(f, sel)) == Unmarked(MarkedTexts(f, sel, false))
  {
    if f != [] {
      var x, rest := f[0], f[1..];
      RemoveAllKeepsUnmarkedTexts(rest, sel);
      var rrest := RemoveAll(rest, sel);
      match x
      case Text(s) =>
        TextsCons(x, rrest);
        UnmarkedAppend([(s, false)], MarkedTexts(rest, sel, false));
      case Element(t, c, cs) =>
        if Matches(sel, x) {
          MarkedUnderMatch(cs, sel);
          UnmarkedAppend(MarkedTexts(cs, sel, true), MarkedTexts(rest, sel, false));
        } else {
          RemoveAllKeepsUnmarkedTexts(cs, sel);
          TextsCons(Element(t, c, RemoveAll(cs, sel)), rrest);
          UnmarkedAppend(MarkedTexts(cs, sel, false), MarkedTexts(rest, sel, false));
        }
    }
  }

  /** After removal the selector matches nothing left, at any depth. */
  lemma {:induction false} RemoveAllLeavesNoMatch(f: seq<Node>, sel: Selector)
    ensures NoMatch(RemoveAll(f, sel), sel)
  {
    if f != [] {
      var x, rest := f[0], f[1..];
      RemoveAllLeavesNoMatch(rest, sel);
      var rrest := RemoveAll(rest, sel);
      match x
      case Text(_) =>
        DescendantsCons(x, rrest);
      case Element(t, c, cs) =>
        if !Matches(sel, x) {
          RemoveAllLeavesNoMatch(cs, sel);
          DescendantsCons(Element(t, c, RemoveAll(cs, sel)), rrest);
        }
    }
  }

  /** A forest with nothing to remove is left as it is. */
  lemma {:induction false} RemoveAllWithoutMatch(f: seq<Node>, sel: Selector)
    requires NoMatch(f, sel)
    ensures RemoveAll(f, sel) == f
  {
    if f != [] {
      var x, rest := f[0], f[1..];
      assert f == [x] + rest;
      DescendantsCons(x, rest);
      assert !Matches(sel, x) by { assert Descendants(f)[0] == x; }
      assert NoMatch(rest, sel) by {
        var inner := Inside(x);
        forall j | 0 <= j < |Descendants(rest)|
          ensures !Matches(sel, Descendants(rest)[j])
        {
          assert Descendants(rest)[j] == Descendants(f)[1 + |inner| + j];
        }
      }
      RemoveAllWithoutMatch(rest, sel);
      if x.Element? {
        assert NoMatch(x.children, sel) by {
          forall j | 0 <= j < |Descendants(x.children)|
            ensures !Matches(sel, Descendants(x.children)[j])
          {
            assert Descendants(x.children)[j] == Descendants(f)[1 + j];
          }
        }
        RemoveAllWithoutMatch(x.children, sel);
      }
    }
  }

  // ---------------------------------------------------------------------------
  // decompose the first match (`tag.find(...).decompose()`)
  // ---------------------------------------------------------------------------

  /** The forest with the subtree of its first match (in document order) removed. */
  function RemoveFirst(f: seq<Node>, sel: Selector): seq<Node> {
    if f == [] then []
    else if Matches(sel, f[0]) then f[1..]
    else match f[0]
      case Text(_) => [f[0]] + RemoveFirst(f[1..], sel)
      case Element(t, c, cs) =>
        if Find(cs, sel).Some? then [Element(t, c, RemoveFirst(cs, sel))] + f[1..]
        else [f[0]] + RemoveFirst(f[1..], sel)
  }

  /** With nothing to find, nothing is removed. */
  lemma {:induction false} RemoveFirstWithoutMatch(f: seq<Node>, sel: Selector)
    requires Find(f, sel).None?
    ensures RemoveFirst(f, sel) == f
  {
    if f != [] {
      RemoveFirstWithoutMatch(f[1..], sel);
      assert [f[0]] + f[1..] == f;
    }
  }

  /**
   * The texts of `f` are those left after removing its first match with that
   * match's texts spliced back in at position `k`.
   */
  predicate SplicedAt(f: seq<Node>, sel: Selector, k: nat)
    requires Find(f, sel).Some?
  {
    var s := Texts(RemoveFirst(f, sel));
    k <= |s| && Texts(f) == s[..k] + Texts([Find(f, sel).value]) + s[k..]
  }

  /** The first `k` texts left after the removal are exactly those preceding the match in document order. */
  predicate PrecedesMatch(f: seq<Node>, sel: Selector, k: nat)
  {
    var s := Texts(RemoveFirst(f, sel));
    k <= |s| && s[..k] == TextsOf(Descendants(f)[..FirstMatchIndex(Descendants(f), sel)])
  }

  /**
   * Removing the first match takes out exactly its text nodes, at its own
   * position in document order, and nothing else.
   */
  lemma {:induction false} RemoveFirstSplicesOutMatch(f: seq<Node>, sel: Selector) returns (k: nat)
    requires Find(f, sel).Some?
    ensures SplicedAt(f, sel, k) && PrecedesMatch(f, sel, k)
  {
    var x, rest := f[0], f[1..];
    assert f == [x] + rest;
    if Matches(sel, x) {
      k := 0;
      SplicedAtRoot(x, rest, sel);
    } else if x.Text? {
      var k' := RemoveFirstSplicesOutMatch(rest, sel);
      k := 1 + k';
      SplicedAfterText(x, rest, sel, k');
      PrecedesAfterText(x, rest, sel, k');
    } else if Find(x.children, sel).Some? {
      k := RemoveFirstSplicesOutMatch(x.children, sel);
      SplicedInChildren(x, rest, sel, k);
      PrecedesInChildren(x, rest, sel, k);
    } else {
      var k' := RemoveFirstSplicesOutMatch(rest, sel);
      k := |Texts(x.children)| + k';
      SplicedAfterElement(x, rest, sel, k');
      PrecedesAfterElement(x, rest, sel, k');
    }
  }

  lemma PrependSlices<T>(a: seq<T>, s: seq<T>, k: nat)
    requires k <= |s|
    ensures (a + s)[..|a| + k] == a + s[..k]
    ensures (a + s)[|a| + k..] == s[k..]
  {
  }

  lemma SplicedAtRoot(x: Node, rest: seq<Node>, sel: Selector)
    requires Matches(sel, x)
    ensures Find([x] + rest, sel).Some? && SplicedAt([x] + rest, sel, 0) && PrecedesMatch([x] + rest, sel, 0)
  {
    var f := [x] + rest;
    assert f[0] == x && f[1..] == rest;
    TextsCons(x, rest);
    TextsCons(x, []);
    assert [x] + [] == [x];
    assert FirstMatchIndex(Descendants(f), sel) == 0 by {
      DescendantsCons(x, rest);
    }
  }

  lemma SplicedAfterText(x: Node, rest: seq<Node>, sel: Selector, k': nat)
    requires x.Text? && Find(rest, sel).Some? && SplicedAt(rest, sel, k')
    ensures Find([x] + rest, sel).Some? && SplicedAt([x] + rest, sel, 1 + k')
  {
    var f := [x] + rest;
    assert f[0] == x && f[1..] == rest;
    var r' := RemoveFirst(rest, sel);
    assert RemoveFirst(f, sel) == [x] + r';
    TextsCons(x, r');
    TextsCons(x, rest);
    PrependSlices([x.text], Texts(r'), k');
  }

  lemma PrecedesAfterText(x: Node, rest: seq<Node>, sel: Selector, k': nat)
    requires x.Text? && PrecedesMatch(rest, sel, k')
    ensures PrecedesMatch([x] + rest, sel, 1 + k')
  {
    var f := [x] + rest;
    var r' := RemoveFirst(rest, sel);
    var s := Texts(RemoveFirst(f, sel));
    var tail := Descendants(rest);
    var d := Descendants(f);
    var i' := FirstMatchIndex(tail, sel);
    assert s == [x.text] + Texts(r') by {
      assert f[0] == x && f[1..] == rest;
      assert RemoveFirst(f, sel) == [x] + r';
      TextsCons(x, r');
    }
    assert s[..1 + k'] == [x.text] + TextsOf(tail[..i']) by {
      PrependSlices([x.text], Texts(r'), k');
    }
    assert d == [x] + tail && FirstMatchIndex(d, sel) == 1 + i' by {
      FirstIndexPastRoot(x, rest, sel);
      assert Inside(x) + tail == tail;
    }
    assert TextsOf(d[..FirstMatchIndex(d, sel)]) == [x.text] + TextsOf(tail[..i']) by {
      PrependSlices([x], tail, i');
      TextsOfAppend([x], tail[..i']);
      assert TextsOf([x]) == [x.text] by { assert [x][1..] == []; }
    }
  }

  /** A splice stays a splice when the same text follows it. */
  lemma SpliceThenAppend<T>(a: seq<T>, m: seq<T>, s: seq<T>, t: seq<T>, k: nat)
    requires k <= |s| && a == s[..k] + m + s[k..]
    ensures k <= |s + t| && a + t == (s + t)[..k] + m + (s + t)[k..]
  {
    assert (s + t)[..k] == s[..k];
    assert (s + t)[k..] == s[k..] + t;
  }

  /** A splice stays a splice, shifted, when the same text precedes it. */
  lemma SplicePrepend<T>(p: seq<T>, a: seq<T>, m: seq<T>, s: seq<T>, k: nat)
    requires k <= |s| && a == s[..k] + m + s[k..]
    ensures |p| + k <= |p + s| && p + a == (p + s)[..|p| + k] + m + (p + s)[|p| + k..]
  {
    PrependSlices(p, s, k);
  }

  lemma SplicedInChildren(x: Node, rest: seq<Node>, sel: Selector, kc: nat)
    requires x.Element? && !Matches(sel, x)
    requires Find(x.children, sel).Some? && SplicedAt(x.children, sel, kc)
    ensures Find([x] + rest, sel).Some? && SplicedAt([x] + rest, sel, kc)
  {
    var f := [x] + rest;
    assert f[0] == x && f[1..] == rest;
    var cs := x.children;
    var m := Find(cs, sel).value;
    assert Find(f, sel) == Find(cs, sel);
    var x' := Element(x.tag, x.classes, RemoveFirst(cs, sel));
    assert RemoveFirst(f, sel) == [x'] + rest;
    var sc := Texts(RemoveFirst(cs, sel));
    TextsCons(x', rest);
    TextsCons(x, rest);
    assert Texts(RemoveFirst(f, sel)) == sc + Texts(rest);
    assert Texts(f) == Texts(cs) + Texts(rest);
    SpliceThenAppend(Texts(cs), Texts([m]), sc, Texts(rest), kc);
  }

  lemma PrecedesInChildren(x: Node, rest: seq<Node>, sel: Selector, kc: nat)
    requires x.Element? && !Matches(sel, x)
    requires Find(x.children, sel).Some? && PrecedesMatch(x.children, sel, kc)
    ensures PrecedesMatch([x] + rest, sel, kc)
  {
    var f := [x] + rest;
    assert f[0] == x && f[1..] == rest;
    var cs := x.children;
    var x' := Element(x.tag, x.classes, RemoveFirst(cs, sel));
    assert RemoveFirst(f, sel) == [x'] + rest;
    var sc := Texts(RemoveFirst(cs, sel));
    var s := Texts([x'] + rest);
    TextsCons(x', rest);
    assert s[..kc] == sc[..kc];
    var inner := Descendants(cs);
    var d := Descendants(f);
    var ic := FirstMatchIndex(inner, sel);
    PrefixBeforeMatchInChildren(x, rest, sel);
    TextsOfAppend([x], inner[..ic]);
    assert TextsOf([x]) == [] by { assert [x][1..] == []; }
  }

  lemma SplicedAfterElement(x: Node, rest: seq<Node>, sel: Selector, k': nat)
    requires x.Element? && !Matches(sel, x) && Find(x.children, sel).None?
    requires Find(rest, sel).Some? && SplicedAt(rest, sel, k')
    ensures Find([x] + rest, sel).Some? && SplicedAt([x] + rest, sel, |Texts(x.children)| + k')
  {
    var f := [x] + rest;
    assert f[0] == x && f[1..] == rest;
    assert Find(f, sel) == Find(rest, sel);
    var r' := RemoveFirst(rest, sel);
    assert RemoveFirst(f, sel) == [x] + r';
    TextsCons(x, r');
    TextsCons(x, rest);
    assert Texts(RemoveFirst(f, sel)) == Texts(x.children) + Texts(r');
    assert Texts(f) == Texts(x.children) + Texts(rest);
    SplicePrepend(Texts(x.children), Texts(rest), Texts([Find(rest, sel).value]), Texts(r'), k');
  }

  lemma PrecedesAfterElement(x: Node, rest: seq<Node>, sel: Selector, k': nat)
    requires x.Element? && !Matches(sel, x) && Find(x.children, sel).None?
    requires PrecedesMatch(rest, sel, k')
    ensures PrecedesMatch([x] + rest, sel, |Texts(x.children)| + k')
  {
    var f := [x] + rest;
    var cs := x.children;
    var tc := Texts(cs);
    var r' := RemoveFirst(rest, sel);
    var s := Texts(RemoveFirst(f, sel));
    var inner := Descendants(cs);
    var d := Descendants(f);
    var ir := FirstMatchIndex(Descendants(rest), sel);
    assert s == tc + Texts(r') by {
      assert f[0] == x && f[1..] == rest;
      assert RemoveFirst(f, sel) == [x] + r';
      TextsCons(x, r');
    }
    assert s[..|tc| + k'] == tc + TextsOf(Descendants(rest)[..ir]) by {
      PrependSlices(tc, Texts(r'), k');
    }
    assert TextsOf(d[..FirstMatchIndex(d, sel)]) == tc + TextsOf(Descendants(rest)[..ir]) by {
      PrefixBeforeMatchAfterElement(x, rest, sel);
      TextsOfAppend([x] + inner, Descendants(rest)[..ir]);
      TextsOfAppend([x], inner);
      assert TextsOf([x]) == [] by { assert [x][1..] == []; }
    }
  }

  lemma PrefixBeforeMatchInChildren(x: Node, rest: seq<Node>, sel: Selector)
    requires x.Element? && !Matches(sel, x) && Find(x.children, sel).Some?
    ensures var d := Descendants([x] + rest); var inner := Descendants(x.children);
            var ic := FirstMatchIndex(inner, sel);
            d[..FirstMatchIndex(d, sel)] == [x] + inner[..ic]
  {
    var inner := Descendants(x.children);
    var it := inner + Descendants(rest);
    var d := Descendants([x] + rest);
    var ic := FirstMatchIndex(inner, sel);
    assert ic < |inner| by { FindIsFirstInDocumentOrder(x.children, sel); }
    assert FirstMatchIndex(it, sel) == ic by { FirstMatchIndexAppend(inner, Descendants(rest), sel); }
    assert d == [x] + it && FirstMatchIndex(d, sel) == 1 + ic by { FirstIndexPastRoot(x, rest, sel); }
    PrefixWithinFirst(x, inner, Descendants(rest), ic);
  }

  lemma PrefixWithinFirst<T>(x: T, a: seq<T>, b: seq<T>, k: nat)
    requires k <= |a|
    ensures ([x] + (a + b))[..1 + k] == [x] + a[..k]
  {
  }

  lemma PrefixPastFirst<T>(x: T, a: seq<T>, b: seq<T>, k: nat)
    requires k <= |b|
    ensures ([x] + (a + b))[..1 + |a| + k] == ([x] + a) + b[..k]
  {
    assert [x] + (a + b) == ([x] + a) + b;
    PrependSlices([x] + a, b, k);
  }

  lemma PrefixBeforeMatchAfterElement(x: Node, rest: seq<Node>, sel: Selector)
    requires x.Element? && !Matches(sel, x) && Find(x.children, sel).None?
    ensures var d := Descendants([x] + rest); var inner := Descendants(x.children);
            var ir := FirstMatchIndex(Descendants(rest), sel);
            |inner| + ir <= |d| &&
            d[..FirstMatchIndex(d, sel)] == ([x] + inner) + Descendants(rest)[..ir]
  {
    var inner := Descendants(x.children);
    var tail := Descendants(rest);
    FirstIndexPastChildren(x, rest, sel);
    PrefixPastFirst(x, inner, tail, FirstMatchIndex(tail, sel));
  }

  /** When nothing inside `x` matches, the first match of `[x] + rest` is the first match of `rest`, shifted. */
  lemma FirstIndexPastChildren(x: Node, rest: seq<Node>, sel: Selector)
    requires x.Element? && !Matches(sel, x) && Find(x.children, sel).None?
    ensures var inner, tail := Descendants(x.children), Descendants(rest);
            && Descendants([x] + rest) == [x] + (inner + tail)
            && FirstMatchIndex(Descendants([x] + rest), sel) == 1 + |inner| + FirstMatchIndex(tail, sel)
  {
    var inner, tail := Descendants(x.children), Descendants(rest);
    assert FirstMatchIndex(inner, sel) == |inner| by { FindIsFirstInDocumentOrder(x.children, sel); }
    assert FirstMatchIndex(inner + tail, sel) == |inner| + FirstMatchIndex(tail, sel) by {
      FirstMatchIndexAppend(inner, tail, sel);
    }
    FirstIndexPastRoot(x, rest, sel);
  }

  /**
   * Only the first match and the matches nested inside it disappear: every
   * later match is still there.
   */
  lemma {:induction false} RemoveFirstKeepsLaterMatches(f: seq<Node>, sel: Selector)
    requires Find(f, sel).Some?
    ensures CountMatches(Descendants(RemoveFirst(f, sel)), sel) ==
            CountMatches(Descendants(f), sel) - CountMatches(Descendants([Find(f, sel).value]), sel)
  {
    var x, rest := f[0], f[1..];
    assert f == [x] + rest;
    DescendantsCons(x, rest);
    var inner := Inside(x);
    CountMatchesAppend([x] + inner, Descendants(rest), sel);
    CountMatchesAppend([x], inner, sel);
    assert CountMatches([x], sel) == (if Matches(sel, x) then 1 else 0) by { assert [x][1..] == []; }
    if Matches(sel, x) {
      DescendantsCons(x, []);
      assert [x] + [] == [x];
      assert Descendants([x]) == [x] + inner;
    } else if x.Text? {
      RemoveFirstKeepsLaterMatches(rest, sel);
      DescendantsCons(x, RemoveFirst(rest, sel));
      CountMatchesAppend([x], Descendants(RemoveFirst(rest, sel)), sel);
    } else {
      var cs := x.children;
      if Find(cs, sel).Some? {
        RemoveFirstKeepsLaterMatches(cs, sel);
        var x' := Element(x.tag, x.classes, RemoveFirst(cs, sel));
        DescendantsCons(x', rest);
        CountMatchesAppend([x'] + Descendants(RemoveFirst(cs, sel)), Descendants(rest), sel);
        CountMatchesAppend([x'], Descendants(RemoveFirst(cs, sel)), sel);
        assert CountMatches([x'], sel) == 0 by { assert [x'][1..] == []; }
      } else {
        RemoveFirstKeepsLaterMatches(rest, sel);
        DescendantsCons(x, RemoveFirst(rest, sel));
        CountMatchesAppend([x] + inner, Descendants(RemoveFirst(rest, sel)), sel);
      }
    }
  }
}
