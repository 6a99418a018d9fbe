/**
 * The property-listing content loader: one listing per markdown file in
 * the content directory, each loaded by slug, failures dropped, the rest
 * ordered by date.
 *
 * The front-matter parser and the markdown renderer are libraries outside
 * this model; they come in as functions that may fail (`None`). The
 * content directory is a value: missing, or present with the names it
 * lists and the contents of the files that can be read.
 */
module Properties {
  import opened Wrappers
  import opened Values
  import opened Excerpt
  import opened Slugs
  import opened Listing
  import opened DateSort

  /** What the front-matter parser returns: the metadata map and the markdown body. */
  datatype FrontMatter = FrontMatter(data: Record, content: string)

  /**
   * The content directory. `entries` is what a directory listing returns,
   * in its order; `files` holds the contents of every entry that can be
   * read as a text file (an entry that is a sub-directory, or unreadable,
   * is absent from it).
   */
  datatype ContentDir =
    | Missing
    | Present(entries: seq<string>, files: map<string, string>)

  /** The result of loading all listings: the directory afterwards, and the listings. */
  datatype Listings = Listings(dir: ContentDir, properties: seq<Record>)

  /** `fs.readFileSync(path.join(dir, name))`, failing when there is no such readable file. */
  function ReadFile(dir: ContentDir, name: string): (r: Option<string>)
    ensures r.Some? <==> dir.Present? && name in dir.files
    ensures r.Some? ==> r.value == dir.files[name]
  {
    if dir.Present? && name in dir.files then Some(dir.files[name]) else None
  }

  /** Every step of loading `<slug>.md` succeeds: read, front-matter parse, render. */
  predicate LoadSucceeds(
    dir: ContentDir, slug: string,
    parse: string -> Option<FrontMatter>, render: string -> Option<string>)
  {
    && dir.Present?
    && slug + MarkdownExt in dir.files
    && parse(dir.files[slug + MarkdownExt]).Some?
    && render(parse(dir.files[slug + MarkdownExt]).value.content).Some?
  }

  /**
   * Load one listing. Any failure of any step gives `None`. On success the
   * record holds every front-matter field as parsed, and the computed slug,
   * rendered HTML and excerpt wherever the front matter does not hold a
   * field of that name.
   */
  function GetPropertyBySlug(
    dir: ContentDir, slug: string,
    parse: string -> Option<FrontMatter>, render: string -> Option<string>): (r: Option<Record>)
    ensures r.Some? <==> LoadSucceeds(dir, slug, parse, render)
    ensures r.Some? ==>
      var fm := parse(dir.files[slug + MarkdownExt]).value;
      && r.value.Keys == fm.data.Keys + {SlugKey, ContentHtmlKey, ExcerptKey}
      && (forall k :: k in fm.data ==> r.value[k] == fm.data[k])
      && (SlugKey !in fm.data ==> r.value[SlugKey] == Str(slug))
      && (ContentHtmlKey !in fm.data ==> r.value[ContentHtmlKey] == Str(render(fm.content).value))
      && (ExcerptKey !in fm.data ==> r.value[ExcerptKey] == Str(MakeExcerpt(fm.content)))
  {
    match ReadFile(dir, slug + MarkdownExt)
    case None => None
    case Some(text) =>
      match parse(text)
      case None => None
      case Some(FrontMatter(data, content)) =>
        match render(content)
        case None => None
        case Some(contentHtml) =>
          Some(Assemble(slug, contentHtml, MakeExcerpt(content), data))
  }

  /**
   * One directory entry through `.filter(endsWith('.md'))` and
   * `.map(getPropertyBySlug(slug))`: `None` for any other name or any failure.
   */
  function LoadEntry(
    dir: ContentDir, name: string,
    parse: string -> Option<FrontMatter>, render: string -> Option<string>): (r: Option<Record>)
    ensures r.Some? <==> IsMarkdownName(name) && LoadSucceeds(dir, SlugOf(name), parse, render)
  {
    if IsMarkdownName(name) then GetPropertyBySlug(dir, SlugOf(name), parse, render) else None
  }

  /**
   * The listings of the markdown entries among `names`, in directory order,
   * one for each such entry that loads; entries that fail are dropped.
   */
  function LoadAll(
    dir: ContentDir, names: seq<string>,
    parse: string -> Option<FrontMatter>, render: string -> Option<string>): (r: seq<Record>)
    ensures |r| <= |names|
  {
    if names == [] then []
    else
      var rest := LoadAll(dir, names[1..], parse, render);
      match LoadEntry(dir, names[0], parse, render)
      case Some(x) => [x] + rest
      case None => rest
  }

  /** A listing is loaded exactly when some entry among `names` loads to it. */
  lemma {:induction false} LoadAllMembers(
    dir: ContentDir, names: seq<string>,
    parse: string -> Option<FrontMatter>, render: string -> Option<string>, x: Record)
    ensures x in LoadAll(dir, names, parse, render) <==>
      exists i :: 0 <= i < |names| && LoadEntry(dir, names[i], parse, render) == Some(x)
  {
    if names != [] {
      LoadAllMembers(dir, names[1..], parse, render, x);
      var t := names[1..];
      if exists i :: 0 <= i < |names| && LoadEntry(dir, names[i], parse, render) == Some(x) {
        var i :| 0 <= i < |names| && LoadEntry(dir, names[i], parse, render) == Some(x);
        if i > 0 {
          assert t[i - 1] == names[i];
        }
      }
      if exists i :: 0 <= i < |t| && LoadEntry(dir, t[i], parse, render) == Some(x) {
        var i :| 0 <= i < |t| && LoadEntry(dir, t[i], parse, render) == Some(x);
        assert names[i + 1] == t[i];
      }
    }
  }

  /** Loading is entry by entry: the listings of `a + b` are those of `a`, then those of `b`. */
  lemma {:induction false} LoadAllConcat(
    dir: ContentDir, a: seq<string>, b: seq<string>,
    parse: string -> Option<FrontMatter>, render: string -> Option<string>)
    ensures LoadAll(dir, a + b, parse, render) == LoadAll(dir, a, parse, render) + LoadAll(dir, b, parse, render)
  {
    if a != [] {
      var ab := a + b;
      assert ab[0] == a[0];
      assert ab[1..] == a[1..] + b;
      LoadAllConcat(dir, a[1..], b, parse, render);
      var tail := LoadAll(dir, a[1..], parse, render);
      var rest := LoadAll(dir, b, parse, render);
      match LoadEntry(dir, a[0], parse, render)
      case Some(x) =>
        assert LoadAll(dir, ab, parse, render) == [x] + (tail + rest);
        assert LoadAll(dir, a, parse, render) == [x] + tail;
      case None =>
        assert LoadAll(dir, ab, parse, render) == tail + rest;
        assert LoadAll(dir, a, parse, render) == tail;
    } else {
      assert a + b == b;
    }
  }

  /** When every markdown entry loads, there is one listing per markdown entry. */
  lemma {:induction false} LoadAllOneEach(
    dir: ContentDir, names: seq<string>,
    parse: string -> Option<FrontMatter>, render: string -> Option<string>)
    requires forall i :: 0 <= i < |names| && IsMarkdownName(names[i]) ==>
      LoadEntry(dir, names[i], parse, render).Some?
    ensures |LoadAll(dir, names, parse, render)| == |MarkdownEntries(names)|
  {
    if names != [] {
      var t := names[1..];
      forall i | 0 <= i < |t| && IsMarkdownName(t[i]) ensures LoadEntry(dir, t[i], parse, render).Some? {
        assert t[i] == names[i + 1];
      }
      LoadAllOneEach(dir, t, parse, render);
      if IsMarkdownName(names[0]) {
        assert MarkdownEntries(names) == [names[0]] + MarkdownEntries(t);
      } else {
        assert MarkdownEntries(names) == MarkdownEntries(t);
      }
    }
  }

  /** Entries that do not end in ".md" are never loaded. */
  lemma {:induction false} LoadAllOnlyMarkdown(
    dir: ContentDir, names: seq<string>,
    parse: string -> Option<FrontMatter>, render: string -> Option<string>)
    ensures LoadAll(dir, names, parse, render) == LoadAll(dir, MarkdownEntries(names), parse, render)
  {
    if names != [] {
      LoadAllOnlyMarkdown(dir, names[1..], parse, render);
      if IsMarkdownName(names[0]) {
        var m := MarkdownEntries(names);
        assert m == [names[0]] + MarkdownEntries(names[1..]);
        assert m[0] == names[0] && m[1..] == MarkdownEntries(names[1..]);
      }
    }
  }

  /**
   * `getAllProperties`. A missing content directory is created (empty) and
   * gives no listings. Otherwise the result is a permutation of the loaded
   * listings, and it is strictly newest first when every loaded listing has
   * a distinct non-empty string date.
   */
  function GetAllProperties(
    dir: ContentDir, parse: string -> Option<FrontMatter>, render: string -> Option<string>): (r: Listings)
    ensures dir.Missing? ==> r.dir == Present([], map[]) && r.properties == []
    ensures dir.Present? ==> r.dir == dir
    ensures dir.Present? ==>
      multiset(r.properties) == multiset(LoadAll(dir, dir.entries, parse, render))
    ensures dir.Present? && AllDatedDistinct(LoadAll(dir, dir.entries, parse, render)) ==>
      StrictlyDescending(r.properties)
  {
    match dir
    case Missing => Listings(Present([], map[]), [])
    case Present(entries, _) =>
      var loaded := LoadAll(dir, entries, parse, render);
      SortByDateDescending(loaded);
      Listings(dir, SortByDate(loaded))
  }

  /**
   * A listing is in the result exactly when some markdown entry of the
   * directory loads to it.
   */
  lemma GetAllPropertiesMembers(
    dir: ContentDir, parse: string -> Option<FrontMatter>, render: string -> Option<string>, x: Record)
    requires dir.Present?
    ensures x in GetAllProperties(dir, parse, render).properties <==>
      exists i :: 0 <= i < |dir.entries| && LoadEntry(dir, dir.entries[i], parse, render) == Some(x)
  {
    var loaded := LoadAll(dir, dir.entries, parse, render);
    LoadAllMembers(dir, dir.entries, parse, render, x);
    assert x in GetAllProperties(dir, parse, render).properties <==> x in multiset(loaded);
  }

  /**
   * Creating the directory settles it: the call after one that found it
   * missing sees it present and empty, and again returns no listings.
   */
  lemma SecondCallAfterCreation(
    parse: string -> Option<FrontMatter>, render: string -> Option<string>)
    ensures var first := GetAllProperties(Missing, parse, render);
      var second := GetAllProperties(first.dir, parse, render);
      second.properties == [] && second.dir == first.dir
  {
  }
}
