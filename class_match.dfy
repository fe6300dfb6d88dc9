/**
 * Locating page elements by a set of CSS classes: the whitespace-token subset
 * test (`test_class`) and the collector that runs one class lookup per token and
 * keeps each qualifying element once (`find_multiclass_elements`).
 *
 * The browser's lookup `parent.find_elements(By.CLASS_NAME, cls)` is the function
 * `find` and `elem.get_attribute("class")` is `classAttr`, over an opaque element
 * type `E` whose equality is the browser's element identity.
 */
module ClassMatch {
  import opened Text

  /** Every whitespace-separated token of `wanted` is a whole token of `have`. */
  predicate HasAllTokens(wanted: string, have: string) {
    forall t :: t in Split(wanted) ==> t in Split(have)
  }

  /** `test_class(class1, class2)`: the tokens of `class1` are checked one by one, stopping at the first miss. */
  method TestClass(class1: string, class2: string) returns (r: bool)
    ensures r <==> HasAllTokens(class1, class2)
  {
    var s1 := Split(class1);
    var s2 := Split(class2);
    for i := 0 to |s1|
      invariant forall k :: 0 <= k < i ==> s1[k] in s2
    {
      if s1[i] !in s2 {
        return false;
      }
    }
    return true;
  }

  /** A blank class set asks for nothing: any element passes. */
  lemma BlankMatchesAll(wanted: string, have: string)
    requires IsBlank(wanted)
    ensures HasAllTokens(wanted, have)
  {
    SplitEmptyIffBlank(wanted);
  }

  /**
   * On space-joined token lists the test is token-list inclusion: the order of the
   * tokens and extra tokens on the element do not matter.
   */
  lemma TokensOfJoined(ws: seq<string>, vs: seq<string>)
    requires forall i :: 0 <= i < |ws| ==> IsWord(ws[i])
    requires forall i :: 0 <= i < |vs| ==> IsWord(vs[i])
    ensures HasAllTokens(Join(ws), Join(vs)) <==> forall w :: w in ws ==> w in vs
  {
    SplitJoin(ws);
    SplitJoin(vs);
  }

  /** Part of a token is not the token: a single class only matches itself. */
  lemma WholeTokensOnly(w: string, v: string)
    requires IsWord(w) && IsWord(v)
    ensures HasAllTokens(w, v) <==> w == v
  {
    SplitWord(w);
    SplitWord(v);
    assert w in Split(w);
  }

  // ---- the collector ----

  /** Position of the first occurrence of `e` in `xs`. */
  function FirstIndex<E(==)>(xs: seq<E>, e: E): (k: nat)
    requires e in xs
    ensures k < |xs| && xs[k] == e
    ensures forall j :: 0 <= j < k ==> xs[j] != e
  {
    var n := |xs| - 1;
    if e in xs[..n] then FirstIndex(xs[..n], e) else n
  }

  predicate NoDuplicates<E(==)>(s: seq<E>) {
    forall i, j :: 0 <= i < j < |s| ==> s[i] != s[j]
  }

  /**
   * The elements of `xs` that `keep` accepts, each once, in the order they are
   * first met: what appending "if it passes and is not there yet" builds up.
   */
  function Gather<E(==)>(xs: seq<E>, keep: E -> bool): seq<E> {
    if xs == [] then []
    else
      var n := |xs| - 1;
      var g := Gather(xs[..n], keep);
      if keep(xs[n]) && xs[n] !in g then g + [xs[n]] else g
  }

  /** `Gather` keeps exactly the accepted elements of `xs`, each once. */
  lemma {:induction false} GatherSpec<E>(xs: seq<E>, keep: E -> bool)
    ensures var g := Gather(xs, keep);
      && (forall i :: 0 <= i < |g| ==> g[i] in xs && keep(g[i]))
      && (forall i :: 0 <= i < |xs| && keep(xs[i]) ==> xs[i] in g)
      && NoDuplicates(g)
  {
    if xs != [] {
      var n := |xs| - 1;
      GatherSpec(xs[..n], keep);
      assert forall i :: 0 <= i < n ==> xs[i] == xs[..n][i];
    }
  }

  /** `Gather` keeps the order of first discovery. */
  lemma {:induction false} GatherOrder<E>(xs: seq<E>, keep: E -> bool)
    ensures var g := Gather(xs, keep);
      && (forall i :: 0 <= i < |g| ==> g[i] in xs)
      && forall i, j :: 0 <= i < j < |g| ==> FirstIndex(xs, g[i]) < FirstIndex(xs, g[j])
  {
    GatherSpec(xs, keep);
    if xs != [] {
      var n := |xs| - 1;
      var p := xs[..n];
      GatherOrder(p, keep);
      GatherSpec(p, keep);
      var g, g' := Gather(p, keep), Gather(xs, keep);
      forall i, j | 0 <= i < j < |g'|
        ensures FirstIndex(xs, g'[i]) < FirstIndex(xs, g'[j])
      {
        assert g'[i] == g[i] && g[i] in p;
        assert FirstIndex(xs, g[i]) == FirstIndex(p, g[i]);
        if j < |g| {
          assert g'[j] == g[j] && g[j] in p;
          assert FirstIndex(xs, g[j]) == FirstIndex(p, g[j]);
        } else {
          assert g'[j] == xs[n] && xs[n] !in p;
        }
      }
    }
  }

  /** All elements found by the per-token lookups, lookup after lookup. */
  function Lookups<E>(find: string -> seq<E>, classes: seq<string>): seq<E> {
    if classes == [] then []
    else Lookups(find, classes[..|classes| - 1]) + find(classes[|classes| - 1])
  }

  lemma {:induction false} LookupsContain<E>(find: string -> seq<E>, classes: seq<string>, e: E)
    ensures e in Lookups(find, classes) <==> exists c :: c in classes && e in find(c)
  {
    if classes != [] {
      var n := |classes| - 1;
      LookupsContain(find, classes[..n], e);
      assert forall c :: c in classes <==> c in classes[..n] || c == classes[n];
    }
  }

  /** The test the collector applies to each candidate. */
  function Qualifies<E>(multiclass: string, classAttr: E -> string): E -> bool {
    e => HasAllTokens(multiclass, classAttr(e))
  }

  /** What `find_multiclass_elements(parent, multiclass)` returns. */
  function MulticlassElements<E(==)>(find: string -> seq<E>, classAttr: E -> string, multiclass: string): seq<E> {
    Gather(Lookups(find, Split(multiclass)), Qualifies(multiclass, classAttr))
  }

  /** Every element the collector returns passes `test_class` against the wanted class set. */
  lemma MulticlassSound<E>(find: string -> seq<E>, classAttr: E -> string, multiclass: string, e: E)
    requires e in MulticlassElements(find, classAttr, multiclass)
    ensures HasAllTokens(multiclass, classAttr(e))
    ensures exists c :: c in Split(multiclass) && e in find(c)
  {
    var xs := Lookups(find, Split(multiclass));
    var g := Gather(xs, Qualifies(multiclass, classAttr));
    GatherSpec(xs, Qualifies(multiclass, classAttr));
    var i :| 0 <= i < |g| && g[i] == e;
    assert e in xs;
    LookupsContain(find, Split(multiclass), e);
  }

  /** Every passing element that some per-token lookup returned is collected. */
  lemma MulticlassComplete<E>(find: string -> seq<E>, classAttr: E -> string, multiclass: string, c: string, e: E)
    requires c in Split(multiclass) && e in find(c)
    requires HasAllTokens(multiclass, classAttr(e))
    ensures e in MulticlassElements(find, classAttr, multiclass)
  {
    var xs := Lookups(find, Split(multiclass));
    LookupsContain(find, Split(multiclass), e);
    var k :| 0 <= k < |xs| && xs[k] == e;
    assert Qualifies(multiclass, classAttr)(xs[k]);
    GatherSpec(xs, Qualifies(multiclass, classAttr));
  }

  /** No element is returned twice, and elements come in the order the lookups first met them. */
  lemma MulticlassOrdered<E>(find: string -> seq<E>, classAttr: E -> string, multiclass: string)
    ensures var r := MulticlassElements(find, classAttr, multiclass);
      var xs := Lookups(find, Split(multiclass));
      && NoDuplicates(r)
      && (forall i :: 0 <= i < |r| ==> r[i] in xs)
      && forall i, j :: 0 <= i < j < |r| ==> FirstIndex(xs, r[i]) < FirstIndex(xs, r[j])
  {
    GatherOrder(Lookups(find, Split(multiclass)), Qualifies(multiclass, classAttr));
    GatherSpec(Lookups(find, Split(multiclass)), Qualifies(multiclass, classAttr));
  }

  /** A blank class set performs no lookup and yields no element. */
  lemma MulticlassBlank<E>(find: string -> seq<E>, classAttr: E -> string, multiclass: string)
    requires IsBlank(multiclass)
    ensures MulticlassElements(find, classAttr, multiclass) == []
  {
    SplitEmptyIffBlank(multiclass);
  }

  /** One more candidate: appended when it passes and is not collected yet. */
  lemma GatherSnoc<E>(xs: seq<E>, e: E, keep: E -> bool)
    ensures Gather(xs + [e], keep)
            == if keep(e) && e !in Gather(xs, keep) then Gather(xs, keep) + [e] else Gather(xs, keep)
  {
    assert (xs + [e])[..|xs|] == xs;
  }

  /** One more token: its lookup's elements follow the earlier ones. */
  lemma LookupsSnoc<E>(find: string -> seq<E>, classes: seq<string>, i: nat)
    requires i < |classes|
    ensures Lookups(find, classes[..i + 1]) == Lookups(find, classes[..i]) + find(classes[i])
  {
    assert classes[..i + 1][..i] == classes[..i];
  }

  /** The inner loop: each element one lookup found is appended when it passes and is new. */
  method AppendPassing<E(==)>(elements: seq<E>, found: seq<E>, classAttr: E -> string, multiclass: string,
                              ghost before: seq<E>)
    returns (result: seq<E>)
    requires elements == Gather(before, Qualifies(multiclass, classAttr))
    ensures result == Gather(before + found, Qualifies(multiclass, classAttr))
  {
    ghost var keep := Qualifies(multiclass, classAttr);
    result := elements;
    assert before + found[..0] == before;
    for j := 0 to |found|
      invariant result == Gather(before + found[..j], keep)
    {
      var elem := found[j];
      var passes := TestClass(multiclass, classAttr(elem));
      assert passes == keep(elem);
      assert before + found[..j + 1] == (before + found[..j]) + [elem];
      GatherSnoc(before + found[..j], elem, keep);
      if passes && elem !in result {
        result := result + [elem];
      }
    }
    assert found[..|found|] == found;
  }

  /** `find_multiclass_elements`: one lookup per token, appending each new element that passes `test_class`. */
  method FindMulticlassElements<E(==)>(find: string -> seq<E>, classAttr: E -> string, multiclass: string)
    returns (elements: seq<E>)
    ensures elements == MulticlassElements(find, classAttr, multiclass)
  {
    elements := [];
    var classes := Split(multiclass);
    for i := 0 to |classes|
      invariant elements == Gather(Lookups(find, classes[..i]), Qualifies(multiclass, classAttr))
    {
      elements := AppendPassing(elements, find(classes[i]), classAttr, multiclass, Lookups(find, classes[..i]));
      LookupsSnoc(find, classes, i);
    }
    assert classes[..|classes|] == classes;
  }
}
