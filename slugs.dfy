/** Which directory entries are listings, and the slug each one is loaded under. */
module Slugs {

  const MarkdownExt := ".md"

  /** `s.endsWith(suffix)`. */
  predicate EndsWith(s: string, suffix: string) {
    |suffix| <= |s| && s[|s| - |suffix|..] == suffix
  }

  /** `fileName.endsWith('.md')`. */
  predicate IsMarkdownName(name: string) {
    EndsWith(name, MarkdownExt)
  }

  /** `s` ends with `suffix` exactly when its last `|suffix|` characters are those of `suffix`, in order. */
  lemma EndsWithCharacters(s: string, suffix: string)
    ensures EndsWith(s, suffix) <==>
      |suffix| <= |s| && forall i :: 0 <= i < |suffix| ==> s[|s| - |suffix| + i] == suffix[i]
  {
    if |suffix| <= |s| {
      var tail := s[|s| - |suffix|..];
      assert forall i :: 0 <= i < |suffix| ==> tail[i] == s[|s| - |suffix| + i];
    }
  }

  /** A name is a markdown name exactly when its last three characters are '.', 'm' and 'd'. */
  lemma IsMarkdownNameCharacters(name: string)
    ensures IsMarkdownName(name) <==>
      |name| >= 3 && name[|name| - 3] == '.' && name[|name| - 2] == 'm' && name[|name| - 1] == 'd'
  {
    EndsWithCharacters(name, MarkdownExt);
  }

  /**
   * `name.replace(/\.md$/, '')`: a markdown name loses exactly its trailing
   * ".md" (so "a.md.md" gives "a.md"); any other name is left as it is.
   */
  function SlugOf(name: string): (slug: string)
    ensures IsMarkdownName(name) ==> slug + MarkdownExt == name
    ensures !IsMarkdownName(name) ==> slug == name
  {
    if IsMarkdownName(name) then name[..|name| - |MarkdownExt|] else name
  }

  /** Every slug is recovered from the file name it gives: the path read is `<slug>.md`. */
  lemma SlugOfMarkdownName(slug: string)
    ensures IsMarkdownName(slug + MarkdownExt)
    ensures SlugOf(slug + MarkdownExt) == slug
  {
  }

  /** Two markdown entries with the same slug are the same entry. */
  lemma SlugOfInjective(m: string, n: string)
    requires IsMarkdownName(m) && IsMarkdownName(n)
    requires SlugOf(m) == SlugOf(n)
    ensures m == n
  {
  }

  /** `names.filter((n) => n.endsWith('.md'))`. */
  function MarkdownEntries(names: seq<string>): (r: seq<string>)
    ensures forall n :: multiset(r)[n] == if IsMarkdownName(n) then multiset(names)[n] else 0
  {
    if names == [] then []
    else
      assert names == [names[0]] + names[1..];
      if IsMarkdownName(names[0]) then [names[0]] + MarkdownEntries(names[1..])
      else MarkdownEntries(names[1..])
  }

  /** Only the last ".md" goes. */
  lemma SlugOfDoubleExtension()
    ensures SlugOf("a.md.md") == "a.md"
  {
  }
}
