/** The list logic of the news handlers: keeping the articles whose author
    matches, in their original order, and cutting a list to a limit. */
module Listing {
  import opened Text
  import opened Model

  /** The two author tests the handlers apply. */
  datatype Criterion =
    | AuthorContains(fragment: string)  // GET /news?author=...: substring, ignoring case
    | AuthorEquals(name: string)        // GET /news/author?name=...: whole name, ignoring case

  /** Does the article's author pass the test? Both sides are folded, as the
      handlers fold both the stored author and the request parameter. */
  predicate Matches(a: Article, c: Criterion): (r: bool)
    ensures c.AuthorContains? && c.fragment == [] ==> r
    ensures c.AuthorContains? && r ==> |c.fragment| <= |a.author|
    ensures c.AuthorEquals? && r ==> |c.name| == |a.author|
  {
    if c.AuthorContains? && c.fragment == [] then
      ContainsTrivial(Lower(a.author));
      true
    else
    match c
    case AuthorContains(fragment) => Contains(Lower(a.author), Lower(fragment))
    case AuthorEquals(name) => EqualsIgnoreCase(a.author, name)
  }

  /** The articles of `s` that pass `c`, in the order of `s`: what the loops of
      the handlers append to their fresh list. */
  function Select(s: seq<Article>, c: Criterion): (r: seq<Article>)
    ensures |r| <= |s|
    ensures forall a :: a in r <==> a in s && Matches(a, c)
    decreases |s|
  {
    if s == [] then []
    else
      var init, last := s[..|s| - 1], s[|s| - 1];
      assert s == init + [last];
      var kept := Select(init, c);
      if Matches(last, c) then kept + [last] else kept
  }

  /** The selection holds each passing article exactly as often as `s` does,
      and no other article. */
  lemma {:induction false} SelectMultiset(s: seq<Article>, c: Criterion)
    ensures forall a :: multiset(Select(s, c))[a] == if Matches(a, c) then multiset(s)[a] else 0
    decreases |s|
  {
    if s != [] {
      var init, last := s[..|s| - 1], s[|s| - 1];
      assert s == init + [last];
      SelectMultiset(init, c);
    }
  }

  /** One more element of `s` adds itself to the selection when it matches. */
  lemma SelectStep(s: seq<Article>, c: Criterion, k: nat)
    requires k < |s|
    ensures Select(s[..k + 1], c) == Select(s[..k], c) + (if Matches(s[k], c) then [s[k]] else [])
  {
    assert s[..k + 1][..k] == s[..k];
  }

  /** `r` is `s` with some elements left out and the rest in their order. */
  predicate IsSubsequence<T(==)>(r: seq<T>, s: seq<T>)
    decreases |s|
  {
    r == [] ||
    (s != [] &&
     ((r[|r| - 1] == s[|s| - 1] && IsSubsequence(r[..|r| - 1], s[..|s| - 1])) ||
      IsSubsequence(r, s[..|s| - 1])))
  }

  /** No element occurs twice in `s`. */
  predicate Distinct<T(==)>(s: seq<T>) {
    forall i, j :: 0 <= i < j < |s| ==> s[i] != s[j]
  }

  lemma {:induction false} SubsequenceMembers<T>(r: seq<T>, s: seq<T>)
    requires IsSubsequence(r, s)
    ensures forall x :: x in r ==> x in s
    decreases |s|
  {
    if r != [] {
      var init := s[..|s| - 1];
      assert s == init + [s[|s| - 1]];
      if r[|r| - 1] == s[|s| - 1] && IsSubsequence(r[..|r| - 1], init) {
        SubsequenceMembers(r[..|r| - 1], init);
        assert r == r[..|r| - 1] + [r[|r| - 1]];
      } else {
        SubsequenceMembers(r, init);
      }
    }
  }

  lemma {:induction false} SubsequenceReflexive<T>(s: seq<T>)
    ensures IsSubsequence(s, s)
    decreases |s|
  {
    if s != [] {
      SubsequenceReflexive(s[..|s| - 1]);
    }
  }

  /** Every prefix of a subsequence of `s` is a subsequence of `s`. */
  lemma {:induction false} SubsequencePrefix<T>(r: seq<T>, s: seq<T>, k: nat)
    requires IsSubsequence(r, s) && k <= |r|
    ensures IsSubsequence(r[..k], s)
    decreases |s|
  {
    if k == |r| {
      assert r[..k] == r;
    } else if k > 0 {
      var init := s[..|s| - 1];
      if r[|r| - 1] == s[|s| - 1] && IsSubsequence(r[..|r| - 1], init) {
        SubsequencePrefix(r[..|r| - 1], init, k);
        assert r[..|r| - 1][..k] == r[..k];
      } else {
        SubsequencePrefix(r, init, k);
      }
    }
  }

  /** Nothing is selected exactly when no element matches. */
  lemma {:induction false} SelectEmpty(s: seq<Article>, c: Criterion)
    ensures Select(s, c) == [] <==> forall a :: a in s ==> !Matches(a, c)
    decreases |s|
  {
    if s != [] {
      var init := s[..|s| - 1];
      assert s == init + [s[|s| - 1]];
      SelectEmpty(init, c);
    }
  }

  /** When every element matches, the selection is the whole list. */
  lemma {:induction false} SelectKeepsAll(s: seq<Article>, c: Criterion)
    requires forall a :: a in s ==> Matches(a, c)
    ensures Select(s, c) == s
    decreases |s|
  {
    if s != [] {
      var init := s[..|s| - 1];
      assert s == init + [s[|s| - 1]];
      SelectKeepsAll(init, c);
    }
  }

  /** When the first `k` elements match and the rest do not, the selection is
      the first `k` elements. */
  lemma {:induction false} SelectPrefix(s: seq<Article>, c: Criterion, k: nat)
    requires k <= |s|
    requires forall i :: 0 <= i < k ==> Matches(s[i], c)
    requires forall i :: k <= i < |s| ==> !Matches(s[i], c)
    ensures Select(s, c) == s[..k]
    decreases |s|
  {
    if k == |s| {
      SelectKeepsAll(s, c);
      assert s[..k] == s;
    } else {
      var init := s[..|s| - 1];
      SelectPrefix(init, c, k);
      assert init[..k] == s[..k];
    }
  }

  /** A subsequence of a list without repetitions has none either. */
  lemma {:induction false} SubsequenceDistinct<T>(r: seq<T>, s: seq<T>)
    requires IsSubsequence(r, s) && Distinct(s)
    ensures Distinct(r)
    decreases |s|
  {
    if r != [] {
      var init := s[..|s| - 1];
      assert Distinct(init);
      if r[|r| - 1] == s[|s| - 1] && IsSubsequence(r[..|r| - 1], init) {
        var front := r[..|r| - 1];
        SubsequenceDistinct(front, init);
        SubsequenceMembers(front, init);
        assert s[|s| - 1] !in init;
        assert r == front + [s[|s| - 1]];
      } else {
        SubsequenceDistinct(r, init);
      }
    }
  }

  /** The selection keeps the order of its input. */
  lemma {:induction false} SelectIsSubsequence(s: seq<Article>, c: Criterion)
    ensures IsSubsequence(Select(s, c), s)
    decreases |s|
  {
    if s != [] {
      var init, last := s[..|s| - 1], s[|s| - 1];
      var kept := Select(init, c);
      SelectIsSubsequence(init, c);
      if Matches(last, c) {
        assert (kept + [last])[..|kept|] == kept;
      }
    }
  }

  /** The selection is the only order-keeping sublist of a list without
      repetitions that holds exactly the matching elements: it is the
      matching articles, each once, in their original order. */
  lemma {:induction false} SelectUnique(s: seq<Article>, c: Criterion, r: seq<Article>)
    requires Distinct(s) && IsSubsequence(r, s)
    requires forall a :: a in r <==> a in s && Matches(a, c)
    ensures r == Select(s, c)
    decreases |s|
  {
    if r == [] {
      SelectEmpty(s, c);
    } else {
      var init, last := s[..|s| - 1], s[|s| - 1];
      assert s == init + [last];
      assert Distinct(init);
      assert last !in init;
      if r[|r| - 1] == last && IsSubsequence(r[..|r| - 1], init) {
        var front := r[..|r| - 1];
        assert r == front + [last];
        SubsequenceMembers(front, init);
        assert Matches(last, c);
        forall a ensures a in front <==> a in init && Matches(a, c) {
          if a in init && Matches(a, c) {
            assert a in r && a != last;
          }
        }
        SelectUnique(init, c, front);
      } else {
        SubsequenceMembers(r, init);
        assert !Matches(last, c);
        SelectUnique(init, c, r);
      }
    }
  }

  /** The list cut to `limit` items, exactly when 0 < limit < |s| (so a limit of
      0 or below cuts nothing). */
  function Limit(s: seq<Article>, limit: int): (r: seq<Article>)
    ensures |r| == if 0 < limit < |s| then limit else |s|
    ensures r == s[..|r|]
  {
    if 0 < limit < |s| then s[..limit] else s
  }
}
