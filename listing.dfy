/**
 * Record assembly: the computed fields first, then every front-matter
 * field spread over them, as in `{ slug, contentHtml, excerpt, ...data }`.
 */
module Listing {
  import opened Values

  const SlugKey := "slug"
  const ContentHtmlKey := "contentHtml"
  const ExcerptKey := "excerpt"

  function Assemble(slug: string, contentHtml: string, excerpt: string, data: Record): (r: Record)
    ensures r.Keys == data.Keys + {SlugKey, ContentHtmlKey, ExcerptKey}
    ensures forall k :: k in data ==> r[k] == data[k]
    ensures SlugKey !in data ==> r[SlugKey] == Str(slug)
    ensures ContentHtmlKey !in data ==> r[ContentHtmlKey] == Str(contentHtml)
    ensures ExcerptKey !in data ==> r[ExcerptKey] == Str(excerpt)
  {
    map[SlugKey := Str(slug), ContentHtmlKey := Str(contentHtml), ExcerptKey := Str(excerpt)] + data
  }

  /**
   * The record carries the computed slug exactly when the front matter has
   * no `slug` field or one holding that same string.
   */
  lemma ComputedSlugSurvivesIff(slug: string, contentHtml: string, excerpt: string, data: Record)
    ensures Assemble(slug, contentHtml, excerpt, data)[SlugKey] == Str(slug) <==>
      (SlugKey !in data || data[SlugKey] == Str(slug))
  {
  }
}
