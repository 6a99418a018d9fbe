/**
 * The listing excerpt: the first 150 characters of the raw markdown body,
 * with the markup characters `#`, `*` and backquote removed, followed by "...".
 */
module Excerpt {

  const ExcerptWidth: nat := 150
  const Ellipsis := "..."

  /** The characters the excerpt drops: the regular expression class `[#*`]`. */
  predicate IsMarkup(c: char) {
    c == '#' || c == '*' || c == '`'
  }

  predicate NoMarkup(s: string) {
    forall i :: 0 <= i < |s| ==> !IsMarkup(s[i])
  }

  /** `s.slice(0, n)`: the first `n` characters, or all of `s` when it is shorter. */
  function Take(s: string, n: nat): (r: string)
    ensures r <= s
    ensures |r| == if |s| <= n then |s| else n
  {
    if |s| <= n then s else s[..n]
  }

  /** `s.replace(/[#*`]/g, '')`: every markup character removed, the rest kept in order. */
  function StripMarkup(s: string): (r: string)
    ensures |r| <= |s|
    ensures NoMarkup(r)
    ensures r == s <==> NoMarkup(s)
  {
    if s == [] then []
    else if IsMarkup(s[0]) then StripMarkup(s[1..])
    else
      var rest := StripMarkup(s[1..]);
      assert NoMarkup(s) <==> NoMarkup(s[1..]) by {
        if NoMarkup(s[1..]) {
          forall i | 0 <= i < |s| ensures !IsMarkup(s[i]) {
            if i > 0 { assert s[i] == s[1..][i - 1]; }
          }
        }
      }
      assert s == [s[0]] + s[1..];
      [s[0]] + rest
  }

  /** Removing markup distributes over concatenation: nothing is reordered. */
  lemma {:induction false} StripMarkupConcat(a: string, b: string)
    ensures StripMarkup(a + b) == StripMarkup(a) + StripMarkup(b)
  {
    if a == [] {
      assert a + b == b;
    } else {
      assert (a + b)[0] == a[0];
      assert (a + b)[1..] == a[1..] + b;
      StripMarkupConcat(a[1..], b);
    }
  }

  /** Each markup character is gone; every other character occurs as often as before. */
  lemma {:induction false} StripMarkupCount(s: string, c: char)
    ensures multiset(StripMarkup(s))[c] == if IsMarkup(c) then 0 else multiset(s)[c]
  {
    if s != [] {
      StripMarkupCount(s[1..], c);
      assert s == [s[0]] + s[1..];
      assert multiset(s) == multiset{s[0]} + multiset(s[1..]);
      if !IsMarkup(s[0]) {
        assert multiset(StripMarkup(s)) == multiset{s[0]} + multiset(StripMarkup(s[1..]));
      }
    }
  }

  /** The excerpt of a markdown body. */
  function MakeExcerpt(body: string): (r: string)
    ensures |r| >= |Ellipsis| && r[|r| - |Ellipsis|..] == Ellipsis
    ensures NoMarkup(r[..|r| - |Ellipsis|])
    ensures |r| <= ExcerptWidth + |Ellipsis|
  {
    var text := StripMarkup(Take(body, ExcerptWidth));
    assert (text + Ellipsis)[..|text|] == text;
    text + Ellipsis
  }

  /**
   * The text before "..." is the 150-character prefix itself exactly when
   * that prefix holds no markup character; a shorter body counts whole.
   */
  lemma ExcerptIsPrefixIff(body: string)
    ensures var r := MakeExcerpt(body);
      r[..|r| - |Ellipsis|] == Take(body, ExcerptWidth) <==> NoMarkup(Take(body, ExcerptWidth))
  {
  }

  /**
   * The text before "..." keeps every non-markup character of the
   * 150-character prefix as often as it occurs there, and no markup character.
   */
  lemma ExcerptKeepsText(body: string, c: char)
    ensures var r := MakeExcerpt(body);
      multiset(r[..|r| - |Ellipsis|])[c] ==
        if IsMarkup(c) then 0 else multiset(Take(body, ExcerptWidth))[c]
  {
    var text := StripMarkup(Take(body, ExcerptWidth));
    assert (text + Ellipsis)[..|text|] == text;
    StripMarkupCount(Take(body, ExcerptWidth), c);
  }
}
