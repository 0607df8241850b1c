/** Case folding and substring search on strings, as the news handlers use them
    (String.toLowerCase, String.contains, String.equalsIgnoreCase).
    Case folding is ASCII only. Java's String.toLowerCase folds with the default
    locale: it agrees with this fold on ASCII text except under a Turkish or
    Azerbaijani locale, where 'I' lowers to a dotless i. String.equalsIgnoreCase
    compares character by character, independently of the locale, and agrees
    with this fold on ASCII text. */
module Text {

  /** Character.toLowerCase restricted to ASCII: 'A'..'Z' become 'a'..'z',
      every other character is left alone. */
  function FoldChar(c: char): (r: char)
    ensures !('A' <= r <= 'Z')
    ensures 'A' <= c <= 'Z' ==> 'a' <= r <= 'z' && r as int - 'a' as int == c as int - 'A' as int
    ensures !('A' <= c <= 'Z') ==> r == c
  {
    if 'A' <= c <= 'Z' then (c as int - 'A' as int + 'a' as int) as char else c
  }

  /** No upper-case ASCII letter occurs in `s`. */
  predicate IsFolded(s: string) {
    forall i :: 0 <= i < |s| ==> !('A' <= s[i] <= 'Z')
  }

  /** String.toLowerCase, character by character. */
  function Lower(s: string): (r: string)
    ensures |r| == |s|
    ensures forall i :: 0 <= i < |s| ==> r[i] == FoldChar(s[i])
    ensures IsFolded(r)
  {
    seq(|s|, i requires 0 <= i < |s| => FoldChar(s[i]))
  }

  /** Folding twice is folding once, and folding changes nothing on a folded string. */
  lemma LowerIdempotent(s: string)
    ensures Lower(Lower(s)) == Lower(s)
    ensures IsFolded(s) ==> Lower(s) == s
  {
    assert forall i :: 0 <= i < |s| ==> Lower(Lower(s))[i] == Lower(s)[i];
  }

  /** `sub` occurs in `text` starting at index `i`. */
  predicate OccursAt(text: string, sub: string, i: nat) {
    i + |sub| <= |text| && text[i..i + |sub|] == sub
  }

  /** String.contains: `sub` occurs somewhere in `text` (the empty string occurs
      everywhere, also in the empty text). */
  function Contains(text: string, sub: string): (r: bool)
    ensures r <==> exists i: nat :: OccursAt(text, sub, i)
    decreases |text|
  {
    if |text| < |sub| then
      assert forall i: nat :: !OccursAt(text, sub, i);
      false
    else if text[..|sub|] == sub then
      assert OccursAt(text, sub, 0);
      true
    else
      assert text != [] by { assert |sub| > 0; }
      var r := Contains(text[1..], sub);
      assert r ==> exists i: nat :: OccursAt(text, sub, i) by {
        if r {
          var i: nat :| OccursAt(text[1..], sub, i);
          assert text[1..][i..i + |sub|] == text[i + 1..i + 1 + |sub|];
          assert OccursAt(text, sub, i + 1);
        }
      }
      assert (exists i: nat :: OccursAt(text, sub, i)) ==> r by {
        if exists i: nat :: OccursAt(text, sub, i) {
          var i: nat :| OccursAt(text, sub, i);
          assert i != 0;
          assert text[1..][i - 1..i - 1 + |sub|] == text[i..i + |sub|];
          assert OccursAt(text[1..], sub, i - 1);
        }
      }
      r
  }

  /** A non-empty `sub` can only occur in a text that holds its first character. */
  lemma ContainsFirstChar(text: string, sub: string)
    requires |sub| > 0 && Contains(text, sub)
    ensures sub[0] in text
  {
    var i: nat :| OccursAt(text, sub, i);
    assert text[i] == text[i..i + |sub|][0];
  }

  /** Every text contains itself and the empty string. */
  lemma ContainsTrivial(text: string)
    ensures Contains(text, text)
    ensures Contains(text, [])
  {
    assert OccursAt(text, text, 0);
    assert OccursAt(text, [], 0);
  }

  /** String.equalsIgnoreCase: equal after folding. */
  function EqualsIgnoreCase(a: string, b: string): (r: bool)
    ensures r <==> |a| == |b| && forall i :: 0 <= i < |a| ==> FoldChar(a[i]) == FoldChar(b[i])
  {
    Lower(a) == Lower(b)
  }

  /** equalsIgnoreCase is an equivalence: reflexive, symmetric and transitive. */
  lemma EqualsIgnoreCaseEquivalence(a: string, b: string, c: string)
    ensures EqualsIgnoreCase(a, a)
    ensures EqualsIgnoreCase(a, b) == EqualsIgnoreCase(b, a)
    ensures EqualsIgnoreCase(a, b) && EqualsIgnoreCase(b, c) ==> EqualsIgnoreCase(a, c)
  {
  }

  /** Two strings equal ignoring case contain each other after folding: an exact
      case-insensitive match is also a case-insensitive substring match. */
  lemma EqualsIgnoreCaseContains(a: string, b: string)
    requires EqualsIgnoreCase(a, b)
    ensures Contains(Lower(a), Lower(b))
  {
    ContainsTrivial(Lower(a));
  }
}
