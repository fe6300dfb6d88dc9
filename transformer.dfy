/**
 * The per-page-load "transformer number": the site writes a fresh random number
 * into otherwise fixed element ids on every load. The ids are built by
 * substituting the number into fixed templates, and the number is recovered from
 * the rendered page by searching for the first container-wrapper id.
 */
module Transformer {
  import opened Wrappers
  import opened Text

  /**
   * The fixed text in front of the number in every such id:
   * `finfin-local-plugin-block-item-publication-list-transformer-`. It is written
   * word by word so that the verifier can check each short piece for a letter
   * (`PlaceholderOnlyOnce`); as one literal that check runs out of resource.
   */
  const IdPrefix := "finfin-" + "local-" + "plugin-" + "block-" + "item-" + "publication-" + "list-" + "transformer-"
  const Placeholder := "NUMBER"
  const WrapperSuffix := "-wrapper"
  const LoadSuffix := "-load"

  /** `finfin-local-plugin-block-item-publication-list-transformer-NUMBER-wrapper` */
  const NewsContainerTemplate := IdPrefix + Placeholder + WrapperSuffix
  /** `finfin-local-plugin-block-item-publication-list-transformer-NUMBER-load` */
  const LoadMoreTemplate := IdPrefix + Placeholder + LoadSuffix

  /** The placeholder's first letter occurs nowhere else in the templates. */
  lemma PlaceholderOnlyOnce()
    ensures Placeholder[0] !in IdPrefix && Placeholder[0] !in WrapperSuffix && Placeholder[0] !in LoadSuffix
  {
  }

  /** `news_container_id(num)`: the id of the news container for this page load. */
  function NewsContainerId(num: string): (id: string)
    ensures id == IdPrefix + num + WrapperSuffix
  {
    PlaceholderOnlyOnce();
    ReplaceSingle(IdPrefix, WrapperSuffix, Placeholder, num);
    Replace(NewsContainerTemplate, Placeholder, num)
  }

  /** `load_more_id(num)`: the id of the "load more" control for this page load. */
  function LoadMoreId(num: string): (id: string)
    ensures id == IdPrefix + num + LoadSuffix
  {
    PlaceholderOnlyOnce();
    ReplaceSingle(IdPrefix, LoadSuffix, Placeholder, num);
    Replace(LoadMoreTemplate, Placeholder, num)
  }

  /**
   * The pattern `finfin-...-transformer-(\d+)-wrapper` occurs in `page` at position `i`
   * with `d` as its digit group.
   */
  predicate OccursAt(page: string, i: nat, d: string) {
    i <= |page| && |d| > 0 && AllDigits(d) && IdPrefix + d + WrapperSuffix <= page[i..]
  }

  /** The regex tried at position `i`: prefix, a greedy digit run, then the wrapper suffix. */
  function MatchAt(page: string, i: nat): Option<string>
    requires i <= |page|
  {
    var rest := page[i..];
    if IdPrefix <= rest then
      var tail := rest[|IdPrefix|..];
      var d := DigitRun(tail);
      if |d| > 0 && WrapperSuffix <= tail[|d|..] then Some(d) else None
    else None
  }

  /** A concatenation is a prefix exactly when its parts are, one after the other. */
  lemma PrefixOfConcat(a: string, b: string, r: string)
    ensures a + b <= r <==> a <= r && b <= r[|a|..]
  {
    if a <= r && b <= r[|a|..] {
      assert (a + b) == r[..|a|] + r[|a|..][..|b|];
      assert r[..|a| + |b|] == r[..|a|] + r[|a|..][..|b|];
    }
    if a + b <= r {
      assert r[..|a|] == (a + b)[..|a|];
      assert r[|a|..][..|b|] == (a + b)[|a|..];
    }
  }

  /** What the matcher accepts at `i` is an occurrence of the pattern there. */
  lemma MatchAtSound(page: string, i: nat, d: string)
    requires i <= |page| && MatchAt(page, i) == Some(d)
    ensures OccursAt(page, i, d)
  {
    var rest := page[i..];
    var tail := rest[|IdPrefix|..];
    PrefixOfConcat(d, WrapperSuffix, tail);
    PrefixOfConcat(IdPrefix, d + WrapperSuffix, rest);
    assert IdPrefix + d + WrapperSuffix == IdPrefix + (d + WrapperSuffix);
  }

  /** Every occurrence of the pattern at `i` is what the matcher accepts there. */
  lemma MatchAtComplete(page: string, i: nat, d: string)
    requires OccursAt(page, i, d)
    ensures MatchAt(page, i) == Some(d)
  {
    var rest := page[i..];
    assert IdPrefix + d + WrapperSuffix == IdPrefix + (d + WrapperSuffix);
    PrefixOfConcat(IdPrefix, d + WrapperSuffix, rest);
    var tail := rest[|IdPrefix|..];
    PrefixOfConcat(d, WrapperSuffix, tail);
    var after := tail[|d|..];
    assert tail == d + after;
    assert after[0] == WrapperSuffix[0] == '-';
    DigitRunOf(d, after);
  }

  /** The matcher at one position agrees with the pattern. */
  lemma MatchAtIff(page: string, i: nat, d: string)
    requires i <= |page|
    ensures MatchAt(page, i) == Some(d) <==> OccursAt(page, i, d)
  {
    if MatchAt(page, i) == Some(d) {
      MatchAtSound(page, i, d);
    }
    if OccursAt(page, i, d) {
      MatchAtComplete(page, i, d);
    }
  }

  /** The positions of `page` at which the pattern matches. */
  function Hits(page: string): nat -> bool {
    (j: nat) => j <= |page| && MatchAt(page, j).Some?
  }

  /**
   * The scan `re.search` performs: the first position from `i` to `n` where `hit`
   * holds, or `n + 1` when there is none.
   */
  function FirstHit(hit: nat -> bool, i: nat, n: nat): (k: nat)
    requires i <= n
    ensures i <= k <= n + 1
    decreases n - i
  {
    if hit(i) then i
    else if i == n then n + 1
    else FirstHit(hit, i + 1, n)
  }

  /** The scan stops at a hit, and nothing before it is one. */
  lemma {:induction false} FirstHitSpec(hit: nat -> bool, i: nat, n: nat)
    requires i <= n
    ensures var k := FirstHit(hit, i, n);
      && (forall j :: i <= j < k ==> !hit(j))
      && (k <= n ==> hit(k))
    decreases n - i
  {
    if !hit(i) && i < n {
      FirstHitSpec(hit, i + 1, n);
    }
  }

  /** `find_transformer_num()` on the rendered page text: the digit group of the first match, if any. */
  function FindTransformerNum(page: string): Option<string> {
    var k := FirstHit(Hits(page), 0, |page|);
    FirstHitSpec(Hits(page), 0, |page|);
    if k <= |page| then MatchAt(page, k) else None
  }

  /** No number is found exactly when the page holds no container-wrapper id. */
  lemma FindNoneIff(page: string)
    ensures FindTransformerNum(page).None? <==> forall i: nat, d :: !OccursAt(page, i, d)
  {
    var k := FirstHit(Hits(page), 0, |page|);
    FirstHitSpec(Hits(page), 0, |page|);
    if k <= |page| {
      MatchAtIff(page, k, MatchAt(page, k).value);
    } else {
      forall i: nat, d ensures !OccursAt(page, i, d) {
        if i <= |page| {
          assert !Hits(page)(i);
          MatchAtIff(page, i, d);
        }
      }
    }
  }

  /** A found number is the non-empty digit group of the leftmost container-wrapper id. */
  lemma FindLeftmost(page: string, d: string)
    requires FindTransformerNum(page) == Some(d)
    ensures |d| > 0 && AllDigits(d)
    ensures exists i: nat :: OccursAt(page, i, d) && forall j: nat, e :: j < i ==> !OccursAt(page, j, e)
  {
    var i := FirstHit(Hits(page), 0, |page|);
    FirstHitSpec(Hits(page), 0, |page|);
    MatchAtIff(page, i, d);
    forall j: nat, e | j < i ensures !OccursAt(page, j, e) {
      assert !Hits(page)(j);
      MatchAtIff(page, j, e);
    }
  }

  /**
   * Extraction inverts substitution: on a page whose first container-wrapper id is
   * `news_container_id(n)` for a digit string `n`, the number found is `n`.
   */
  lemma FindInvertsNewsContainerId(pre: string, n: string, post: string)
    requires |n| > 0 && AllDigits(n)
    requires forall j: nat, e :: j < |pre| ==> !OccursAt(pre + NewsContainerId(n) + post, j, e)
    ensures FindTransformerNum(pre + NewsContainerId(n) + post) == Some(n)
  {
    var page := pre + NewsContainerId(n) + post;
    var i := |pre|;
    assert page[i..][..|NewsContainerId(n)|] == NewsContainerId(n);
    MatchAtIff(page, i, n);
    assert Hits(page)(i);
    var k := FirstHit(Hits(page), 0, |page|);
    FirstHitSpec(Hits(page), 0, |page|);
    assert k <= i;
    assert Hits(page)(k);
    MatchAtIff(page, k, MatchAt(page, k).value);
    assert k == i;
  }

  /** In particular a page that is just the container id gives its number back. */
  lemma FindsOwnNumber(n: string)
    requires |n| > 0 && AllDigits(n)
    ensures FindTransformerNum(NewsContainerId(n)) == Some(n)
  {
    var id := NewsContainerId(n);
    assert "" + id + "" == id;
    FindInvertsNewsContainerId("", n, "");
  }

  /** The "load more" id never matches: after the digits comes `-load`, not `-wrapper`. */
  lemma LoadMoreIdNeverMatches(page: string, i: nat, n: string, d: string)
    requires i <= |page| && |n| > 0 && AllDigits(n)
    requires LoadMoreId(n) <= page[i..]
    ensures !OccursAt(page, i, d)
  {
    var rest := page[i..];
    assert rest[..|LoadMoreId(n)|] == IdPrefix + n + LoadSuffix;
    assert IdPrefix <= rest;
    var tail := rest[|IdPrefix|..];
    assert tail[..|n| + |LoadSuffix|] == n + LoadSuffix;
    assert tail == n + tail[|n|..];
    assert tail[|n|] == '-' && tail[|n| + 1] == 'l';
    DigitRunOf(n, tail[|n|..]);
    assert !(WrapperSuffix <= tail[|n|..]) by {
      assert tail[|n|..][1] == 'l';
    }
    assert MatchAt(page, i).None?;
    MatchAtIff(page, i, d);
  }

  /** The bare id (the number followed by neither a digit nor `-`) never matches. */
  lemma BareIdNeverMatches(page: string, i: nat, n: string, c: char, d: string)
    requires i <= |page| && |n| > 0 && AllDigits(n)
    requires !IsDigit(c) && c != '-'
    requires IdPrefix + n + [c] <= page[i..]
    ensures !OccursAt(page, i, d)
  {
    var rest := page[i..];
    assert rest[..|IdPrefix| + |n| + 1] == IdPrefix + n + [c];
    assert IdPrefix <= rest;
    var tail := rest[|IdPrefix|..];
    assert tail[..|n| + 1] == n + [c];
    assert tail == n + tail[|n|..];
    assert tail[|n|] == c;
    DigitRunOf(n, tail[|n|..]);
    assert !(WrapperSuffix <= tail[|n|..]) by {
      assert tail[|n|..][0] == c;
    }
    assert MatchAt(page, i).None?;
    MatchAtIff(page, i, d);
  }
}
