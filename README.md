# Property-listing content loader, in Dafny

This project models the content loader of a real-estate marketing site
(`lib/properties.ts`). The loader turns a directory of markdown files into
property listings:

- `getAllProperties` creates the content directory when it is missing and
  returns no listings. Otherwise it keeps the directory entries whose names
  end in `.md` and turns each name into a slug. It loads one listing per
  slug, drops the loads that failed and sorts the rest by `date`, newest
  first.
- `getPropertyBySlug` reads `<slug>.md` and splits it into front matter and
  body. It renders the body to HTML and derives an excerpt: the first 150
  characters of the raw body, minus `#`, `*` and backquote, followed by
  `...`. It then spreads the front matter over the computed `slug`,
  `contentHtml` and `excerpt`. Any failure gives `null`.

The model is made of functions over values, as the loader itself is a chain of
`filter`, `map`, `sort`, `slice` and `replace` calls:

- `values.dfy`: front-matter values, records as open maps, JavaScript
  truthiness, and the string `<` with its order lemmas.
- `excerpt.dfy`: `slice(0, 150)`, the markup-stripping `replace` and the
  excerpt.
- `slugs.dfy`: the `.md` filter and the slug.
- `listing.dfy`: the `{ slug, contentHtml, excerpt, ...data }` overlay.
- `datesort.dfy`: the date comparator and the sort.
- `properties.dfy`: `getPropertyBySlug`, the per-entry pipeline and
  `getAllProperties`.

The libraries and the file system enter as follows:

- The front-matter parser (`gray-matter`) and the markdown renderer
  (`remark` with `remark-html`) are function parameters of type
  `string -> Option<...>`. `None` stands for a thrown error. The model
  assumes nothing about which values they return. Front-matter values
  are nulls, booleans, integers, strings, lists and nested mappings
  (`Value`).
- The content directory is a `ContentDir` value. It is either `Missing`, or
  `Present` with the names a directory listing returns (in order) and the
  contents of the entries that can be read as text files.
- Creating the missing directory is modelled by returning the new directory
  value (`Present([], map[])`) beside the listings.
- `null` is `None`. The loaded listings are a `seq<Record>`, so the result of
  `getAllProperties` cannot hold a `null`.

Three behaviours of the code are easy to misread:

- The excerpt removes three characters: `#`, `*` and backquote.
- A front-matter field named `slug`, `contentHtml` or `excerpt` replaces
  the computed value, because the spread comes last. The computed slug
  therefore does not survive a `slug` field in the front matter.
- The comparator returns `-1` for two equal dates, so two listings with
  the same date each claim to come first (`CompareEqualDates`). Only a
  missing or falsy date gives `0`.

## Model

| member | source | states |
|---|---|---|
| `Values.StrLessIsLexicographic` | lib/properties.ts:49 | The string `<` used by the comparator is lexicographic: a proper prefix is smaller, otherwise the first differing character decides (both directions). |
| `Values.StrLessIrreflexive` | lib/properties.ts:49 | No string is `<` itself. |
| `Values.StrLessAsymmetric` | lib/properties.ts:49 | `a < b` and `b < a` never both hold. |
| `Values.StrLessTransitive` | lib/properties.ts:49 | `a < b` and `b < c` give `a < c`. |
| `Values.StrLessTotal` | lib/properties.ts:49 | Two different strings are ordered one way or the other. |
| `Values.Truthy` | lib/properties.ts:48 | A date counts as present exactly when it is not one of JavaScript's falsy values `null`, `false`, `0` and `""`; lists and nested mappings are truthy. |
| `Values.JsLess` | lib/properties.ts:49 | `<` compares two strings as strings (by `StrLess`) and two numbers as numbers; other pairs are listed under Left out. |
| `Values.JsLessAsymmetric` | lib/properties.ts:49 | `x < y` and `y < x` never both hold. |
| `Excerpt.Take` | lib/properties.ts:66 | `slice(0, n)` returns a prefix of the body, of length `n`, or the whole body when it is shorter. |
| `Excerpt.StripMarkup` | lib/properties.ts:66 | The `replace(/[#*`]/g, '')` result has no `#`, `*` or backquote, is no longer than its input, and equals its input exactly when the input has none of them. |
| `Excerpt.StripMarkupConcat` | lib/properties.ts:66 | Stripping distributes over concatenation, so the kept characters stay in their original order. |
| `Excerpt.StripMarkupCount` | lib/properties.ts:66 | Each markup character occurs zero times afterwards; every other character occurs as often as before. |
| `Excerpt.MakeExcerpt` | lib/properties.ts:66 | The excerpt always ends with `...`, the text before it has no markup character, and it is at most 153 characters long (short bodies included). |
| `Excerpt.ExcerptIsPrefixIff` | lib/properties.ts:66 | The text before `...` equals the first `min(150, length)` characters of the body exactly when those hold no markup character. |
| `Excerpt.ExcerptKeepsText` | lib/properties.ts:66 | The text before `...` holds every non-markup character of that prefix as often as the prefix does, and no markup character. |
| `Slugs.EndsWithCharacters` | lib/properties.ts:37 | `endsWith(suffix)` holds exactly when the last characters of the name are those of the suffix, in order. |
| `Slugs.IsMarkdownNameCharacters` | lib/properties.ts:37 | A name passes the `.md` filter exactly when its last three characters are `.`, `m` and `d`. |
| `Slugs.SlugOf` | lib/properties.ts:39 | For a name ending in `.md`, slug + `.md` is the name, so only the final `.md` is removed; any other name is unchanged. |
| `Slugs.SlugOfMarkdownName` | lib/properties.ts:39-40 | Any slug + `.md` is a markdown name whose slug is that slug, so the file read for a slug is the entry it came from. |
| `Slugs.SlugOfInjective` | lib/properties.ts:39 | Two markdown entries with the same slug are the same name. |
| `Slugs.SlugOfDoubleExtension` | lib/properties.ts:39 | `a.md.md` gives the slug `a.md`. |
| `Slugs.MarkdownEntries` | lib/properties.ts:37 | The `.md` filter keeps each name ending in `.md` as often as the listing has it, and no other name. |
| `Listing.Assemble` | lib/properties.ts:68-73 | The record's fields are the front-matter fields plus `slug`, `contentHtml` and `excerpt`. Every front-matter field keeps its parsed value, and each computed value appears only where the front matter has no field of that name. |
| `Listing.ComputedSlugSurvivesIff` | lib/properties.ts:68-73 | The record's `slug` is the computed slug exactly when the front matter has no `slug` field or one holding the same string. |
| `DateSort.Compare` | lib/properties.ts:47-52 | The comparator returns -1, 0 or 1. It returns 0 exactly when either date is missing or falsy, and 1 only when the first date is `<` the second. |
| `DateSort.CompareOnDistinctDates` | lib/properties.ts:48-49 | For two different string dates the comparator is antisymmetric and non-zero, and ranks the later date first. |
| `DateSort.CompareEqualDates` | lib/properties.ts:48-49 | For equal dates the comparator returns -1 in both directions, so it is not a consistent order. |
| `DateSort.Insert` | lib/properties.ts:47-52 | One insertion step of the sort adds exactly the inserted listing. |
| `DateSort.InsertKeepsDescending` | lib/properties.ts:47-52 | Inserting a listing with a new date into a strictly newest-first sequence keeps it strictly newest first. |
| `DateSort.SortByDate` | lib/properties.ts:47-52 | The sort returns a permutation of the loaded listings. |
| `DateSort.SortByDateDescending` | lib/properties.ts:47-52 | When every listing has a non-empty string date and no two share one, the result is in strictly descending date order. |
| `DateSort.SortedPermutationUnique` | lib/properties.ts:47-52 | Two strictly newest-first permutations of each other are equal, so under distinct dates any sorting algorithm gives the same result. |
| `Properties.GetPropertyBySlug` | lib/properties.ts:55-77 | The result is `None` exactly when the read, the front-matter parse or the render fails. On success the record holds every front-matter field as parsed, the computed slug, HTML and excerpt where the front matter lacks those fields, and nothing else. |
| `Properties.LoadEntry` | lib/properties.ts:37-41 | A directory entry yields a listing exactly when its name ends in `.md` and every load step for its slug succeeds. |
| `Properties.LoadAll` | lib/properties.ts:35-46 | The `null`-free loaded listings are at most one per entry. |
| `Properties.LoadAllMembers` | lib/properties.ts:35-46 | A listing is loaded exactly when some directory entry loads to it. |
| `Properties.LoadAllConcat` | lib/properties.ts:35-43 | Loading is entry by entry, in directory order: the listings of `a + b` are those of `a` followed by those of `b`. |
| `Properties.LoadAllOneEach` | lib/properties.ts:35-46 | When every `.md` entry loads, there is exactly one listing per `.md` entry. |
| `Properties.LoadAllOnlyMarkdown` | lib/properties.ts:36-37 | Loading all entries gives the same listings as loading only the `.md` entries. |
| `Properties.GetAllProperties` | lib/properties.ts:27-53 | A missing directory is created empty and gives no listings. Otherwise the directory is unchanged, the result is a permutation of the loaded listings, and it is strictly newest first when all loaded dates are distinct non-empty strings. |
| `Properties.GetAllPropertiesMembers` | lib/properties.ts:35-46 | A listing is in the result exactly when some `.md` entry of the directory loads to it. |
| `Properties.SecondCallAfterCreation` | lib/properties.ts:29-32 | After a call that created the directory, the next call sees it present and unchanged and again returns no listings. |

## Left out

- File-system I/O: real reads, permissions and `path.join` are not modelled. A slug is looked up literally as `<slug>.md` in the directory value, so a slug with `/` or `..` passed straight to `getPropertyBySlug` is not resolved to another path.
- Exceptions outside the `try`: a failing `mkdirSync`, or a `readdirSync` on a path that is not a directory, rejects the promise of `getAllProperties`. The model has no such outcome.
- The front-matter parser and the markdown renderer are parameters whose output is unspecified. A YAML date parsed into a `Date` object has no counterpart in `Value`, and numbers are integers (no floating point).
- `DateSort.Compare`: the `<` of any two values other than two strings or two numbers (a string against a number, two booleans, arrays, objects) follows JavaScript's coercion rules in the source; the model treats it as false. The order is claimed only for non-empty string dates, where this does not arise.
- `DateSort.SortByDate`: the JavaScript engine's sorting algorithm is replaced by an insertion sort driven by the same comparator. No order is claimed when a date is missing, falsy or shared; `SortedPermutationUnique` shows the claimed order does not depend on the algorithm.
- `async` and `Promise.all`: the loads are a sequential map; their order is the directory order, which `Promise.all` keeps.
- The `Property` interface and its `as Property` cast are not checked at run time; records are open maps from field name to value, with no typed fields such as `title`.
- UTF-16: strings are sequences of characters. JavaScript compares UTF-16 code units, and `slice(0, 150)` counts code units; characters outside the Basic Multilingual Plane are not modelled.
