# Links directory and blog: a Dafny model of its content rules

The repository is a links directory with a small blog. It is written as
Next.js route handlers over a Prisma database. This project models the rules
those handlers apply, against an in-memory store: Dafny sequences and maps
stand in for the Post, Tag, Settings and Link tables.

- **Creating a post** (`AdminBlogPosts`, with `Slugs` and `Excerpts`). The
  admin gate and the title/content check come first. Then a slug is made
  from the title, and the search appends `-1`, `-2`, … until the slug is
  free. Each tag name is upserted keyed by its slug. An excerpt is computed
  from the content. `publishedAt` is set exactly when the post is published.
  The admin listing shows every post, newest first.
- **The public listing** (`BlogPosts`). Only published posts are listed,
  optionally only featured ones or only those carrying one tag. They come
  newest publication first, one `skip`/`take` page at a time. The listing
  also returns the total, the number of pages and each post's reading time.
- **The settings** (`AdminSettings`, `PublicSettings`). A key/value table of
  which only `siteTitle`, `siteDescription` and `faviconUrl` are read or
  written. Both `GET` routes fold the allowed rows into an object. The admin
  `POST` upserts one allowed key.
- **The link directory** (`Links`, `HomePage`). An admin adds a link to a
  category, and anyone lists the links newest first. The home page makes a
  URL absolute before opening it, and shows the first six links of a
  category until the card is expanded.
- **The progress bar** (`ProgressBar`). It computes the clamped offset of
  the bar.

The JavaScript primitives these rules use are modelled in `JsText`:
- the `\s` character class and `trim`;
- `split(/\s+/)`;
- ASCII `toLowerCase`;
- `startsWith`;
- the decimal form of a counter.

`Auth` holds the session (the `role` of `types/next-auth.d.ts:9`) and the
JSON replies. `Ordering` holds the descending `orderBy`.

The store-changing handlers are methods of classes whose fields are the
tables:
- `BlogStore.CreatePost`;
- `SettingsStore.Save`;
- `LinkStore.CreateLink`.

Each class keeps the table constraints of `scripts/init-turso.mjs` as its
`Valid()` invariant:
- Post.slug is unique;
- Tag.name and Tag.slug are unique;
- Settings.key is unique.

Time stamps, the session and request bodies are parameters. A field missing
from a JSON body is `None`.

## Model

| member | source | states |
|---|---|---|
| Auth.IsAdmin | app/api/admin/blog/posts/route.ts:26 | the admin gate, which rejects a missing session or a role other than `ADMIN`: every handler contract that uses it (AdminBlogPosts.AdminListPosts, AdminBlogPosts.BlogStore.CreatePost, AdminSettings.SettingsStore.Save, Links.LinkStore.CreateLink) answers 401 with nothing changed exactly when it fails |
| Auth.Present | app/api/admin/blog/posts/route.ts:68 | JavaScript truthiness of an optional body or query string (`!title`, `!content`, `!key`, `!url`, `!categoryId`, `if (tag)`); its cases are stated in Auth.PresentCases |
| Auth.PresentCases | app/api/admin/blog/posts/route.ts:68 | a missing string and the empty string are falsy, every other string is truthy |
| JsText.IsWhitespace | app/api/blog/posts/route.ts:54 | the `\s` class, also what `trim` removes: the ECMAScript WhiteSpace and LineTerminator characters; what it means for a string is stated by JsText.Trim, JsText.Split, JsText.SplitPieces and JsText.SplitCount |
| JsText.Trim | app/api/admin/blog/posts/route.ts:18 | `trim` removes whitespace from both ends only: the result is a slice of the input, everything cut off on either side is whitespace, and the result neither starts nor ends with whitespace |
| JsText.TrimStart | app/api/admin/blog/posts/route.ts:18 | the leading-whitespace cut of `trim`: the result is a suffix of the input, everything cut off is whitespace, and the result does not start with whitespace |
| JsText.TrimEnd | app/api/admin/blog/posts/route.ts:18 | the trailing-whitespace cut of `trim`: the result is a prefix of the input, everything cut off is whitespace, and the result does not end with whitespace |
| JsText.ToLowerAscii | app/api/admin/blog/posts/route.ts:9 | lower-casing keeps the length and maps every character through the ASCII letter case map |
| JsText.StartsWith | app/page.tsx:23 | `String.prototype.startsWith`; its meaning is proved in JsText.StartsWithConcat |
| JsText.StartsWithConcat | app/page.tsx:23 | a string starts with a prefix exactly when it is that prefix followed by some string |
| JsText.NatToString | app/api/admin/blog/posts/route.ts:83 | the counter is written in decimal digits, at least one, two or more exactly from 10 on, with no leading zero |
| JsText.NatToStringValue | app/api/admin/blog/posts/route.ts:83 | the digits written for the counter read back, in base 10, as the counter itself |
| JsText.NatToStringInjective | app/api/admin/blog/posts/route.ts:83 | different counters are written differently |
| JsText.Split | app/api/blog/posts/route.ts:54 | `split(/\s+/)` returns at least one piece, even for the empty string |
| JsText.SplitPieces | app/api/blog/posts/route.ts:54 | no piece of the split contains whitespace |
| JsText.SplitCount | app/api/blog/posts/route.ts:54 | the number of pieces is one more than the number of maximal whitespace runs |
| JsText.RunsAfterWord | app/api/blog/posts/route.ts:54 | characters that are not whitespace at the front of a string add no whitespace run |
| JsText.RunsAfterRun | app/api/blog/posts/route.ts:54 | a maximal whitespace run at the front of a string adds exactly one run |
| Ordering.ConsSorted | app/api/links/route.ts:13 | a row whose key is no smaller than the first key of a descending list can go in front |
| Ordering.InsertDesc | app/api/links/route.ts:13 | inserting into a list sorted by descending key keeps it sorted and adds exactly that element |
| Ordering.SortDesc | app/api/admin/blog/posts/route.ts:41-43 | `orderBy: desc` returns a permutation of the rows whose keys do not increase |
| Slugs.CollapseRuns | app/api/admin/blog/posts/route.ts:10 | every run of characters outside [a-z0-9] becomes one dash: the result uses only letters, digits and dashes, never two dashes in a row, keeps the letters and digits in order, and starts/ends with a dash exactly when the input starts/ends with such a character; where the dashes stand is fixed by Slugs.CollapseRunsReference |
| Slugs.DashOut | app/api/admin/blog/posts/route.ts:10 | the reference step of the replacement: same length, each letter or digit kept and every other character a dash at the same position |
| Slugs.CollapseRunsReference | app/api/admin/blog/posts/route.ts:10 | collapsing runs equals dashing out every character outside [a-z0-9] one for one and then merging adjacent dashes, so a single dash stands exactly where each maximal run was |
| Slugs.DropLeadingDashes | app/api/admin/blog/posts/route.ts:11 | `.replace(/^-+/, "")`; its contract is proved in Slugs.DropLeadingDashesFacts |
| Slugs.DropTrailingDashes | app/api/admin/blog/posts/route.ts:11 | `.replace(/-+$/, "")`; its contract is proved in Slugs.DropTrailingDashesFacts |
| Slugs.AlnumsConcat | app/api/admin/blog/posts/route.ts:10 | the letters and digits of a concatenation are those of the parts, in order |
| Slugs.DropLeadingDashesFacts | app/api/admin/blog/posts/route.ts:11 | removing leading dashes leaves a suffix that does not start with a dash, everything dropped is a dash, and no letter or digit is lost |
| Slugs.DropTrailingDashesFacts | app/api/admin/blog/posts/route.ts:11 | removing trailing dashes leaves a prefix that does not end with a dash, everything dropped is a dash, and no letter or digit is lost |
| Slugs.GenerateSlug | app/api/admin/blog/posts/route.ts:7-12 | `generateSlug(title)`; its shape is proved in Slugs.GenerateSlugShape, its value against the reference collapse in Slugs.GenerateSlugReference, its fixpoints in Slugs.SlugFixpoints |
| Slugs.GenerateSlugShape | app/api/admin/blog/posts/route.ts:7-12 | every slug uses only a-z, 0-9 and `-`, has no `--`, does not start or end with `-`, and keeps exactly the letters and digits of the lower-cased title, in order |
| Slugs.GenerateSlugReference | app/api/admin/blog/posts/route.ts:7-12 | the slug is the lower-cased title with every character outside [a-z0-9] dashed out, adjacent dashes merged, and the dashes at both ends dropped |
| Slugs.CollapseKeepsSlugs | app/api/admin/blog/posts/route.ts:10 | text of letters, digits and single dashes passes the collapsing step unchanged |
| Slugs.SlugOfSlug | app/api/admin/blog/posts/route.ts:7-12 | slugging a slug returns it unchanged |
| Slugs.GenerateSlugIdempotent | app/api/admin/blog/posts/route.ts:7-12 | slugging twice gives the same as slugging once |
| Slugs.SlugFixpoints | app/api/admin/blog/posts/route.ts:7-12 | a string is its own slug if and only if it has the slug shape |
| Excerpts.CloseAt | app/api/admin/blog/posts/route.ts:16 | the scan for `>` stops within the text, and on a `>` when it stops before the end |
| Excerpts.CloseAtFirst | app/api/admin/blog/posts/route.ts:16 | no `>` comes before the position the scan stops at, so a tag runs to the first `>` |
| Excerpts.CloseAtAfter | app/api/admin/blog/posts/route.ts:16 | when text without `>` is followed by `>`, the scan stops right on that `>` |
| Excerpts.StripTags | app/api/admin/blog/posts/route.ts:16 | `.replace(/<[^>]*>/g, "")`; its laws are proved in Excerpts.StripTagsKeepsPlain, Excerpts.StripTagsDropsTag and the lemmas below |
| Excerpts.StripTagsKeepsPlain | app/api/admin/blog/posts/route.ts:16 | text without `<` in front of the rest survives unchanged and in order, ahead of the rest with its tags removed |
| Excerpts.StripTagsDropsTag | app/api/admin/blog/posts/route.ts:16 | a complete tag `<...>` with no `>` inside is removed whole and the text after it is processed as if the tag were absent |
| Excerpts.StripTagsElement | app/api/admin/blog/posts/route.ts:16 | of an element `<x>a<y>` whose text has no `<` and whose tags have no `>` inside, exactly the text `a` is left |
| Excerpts.StripTagsExample | app/api/admin/blog/posts/route.ts:16 | removing the tags of `<b>hi</b>` leaves `hi` |
| Excerpts.StripTagsShorter | app/api/admin/blog/posts/route.ts:16 | removing `<...>` tags never lengthens the text |
| Excerpts.StripTagsChars | app/api/admin/blog/posts/route.ts:16 | every character left after removing tags is a character of the input |
| Excerpts.StripTagsTagFree | app/api/admin/blog/posts/route.ts:16 | after removing tags no `<` is followed later by `>` |
| Excerpts.TagFreeHead | app/api/admin/blog/posts/route.ts:16 | in tag-free text a leading `<` opens no tag |
| Excerpts.StripTagsKeepsTagFree | app/api/admin/blog/posts/route.ts:16 | text without tags passes the tag removal unchanged |
| Excerpts.StripTagsIdempotent | app/api/admin/blog/posts/route.ts:16 | removing tags twice gives the same as once |
| Excerpts.TagFreeCons | app/api/admin/blog/posts/route.ts:16 | a character in front of tag-free text keeps it tag-free unless it opens a tag that the text closes |
| Excerpts.TagFreeSlice | app/api/admin/blog/posts/route.ts:16 | a slice of tag-free text is tag-free |
| Excerpts.TagFreeWithDots | app/api/admin/blog/posts/route.ts:18 | appending `...` to tag-free text keeps it tag-free |
| Excerpts.TruncateAndTrim | app/api/admin/blog/posts/route.ts:18 | the first n characters, trimmed, plus `...` form a trimmed truncation of the text and stay tag-free |
| Excerpts.GenerateExcerpt | app/api/admin/blog/posts/route.ts:15-19 | `generateExcerpt(content, maxLength)`; its contract is proved in Excerpts.GenerateExcerptFacts |
| Excerpts.GenerateExcerptFacts | app/api/admin/blog/posts/route.ts:15-19 | the excerpt is tag-free and at most maxLength + 3 long; it is the tag-stripped text when that is at most maxLength long, and otherwise its first maxLength characters trimmed plus `...` |
| AdminBlogPosts.TagNamesUnique | scripts/init-turso.mjs:114-115 | in a tag table keyed by slugs derived from names, different rows have different names |
| AdminBlogPosts.Candidate | app/api/admin/blog/posts/route.ts:83 | the template `${baseSlug}-${counter}`; AdminBlogPosts.AttemptsDistinct proves distinct counters give distinct candidates, and AdminBlogPosts.BlogStore.FindFreeSlug returns one of them when the base is taken |
| AdminBlogPosts.AttemptsDistinct | app/api/admin/blog/posts/route.ts:81-85 | the search never tries the same slug twice |
| AdminBlogPosts.NotYetAttempted | app/api/admin/blog/posts/route.ts:82-86 | the slug of a later step is not among those tried before it |
| AdminBlogPosts.AttemptedAreTaken | app/api/admin/blog/posts/route.ts:82-86 | while the search goes on, every slug it has tried is taken |
| AdminBlogPosts.FirstFreeUnique | app/api/admin/blog/posts/route.ts:76-86 | there is only one first free step, so the chosen slug is determined by the taken slugs |
| AdminBlogPosts.TagUpsert | app/api/admin/blog/posts/route.ts:93-100 | the upsert adds the slug as a key, keeps every existing row as it was (`update: {}`), and creates a row with the name and slug when the slug is new |
| AdminBlogPosts.TagUpsertIdempotent | app/api/admin/blog/posts/route.ts:93-100 | upserting the same name twice is upserting it once |
| AdminBlogPosts.TagUpsertSameSlug | app/api/admin/blog/posts/route.ts:92-100 | a second name with the same slug reuses the first name's row |
| AdminBlogPosts.TagUpsertWellFormed | app/api/admin/blog/posts/route.ts:92-100 | the upsert keeps every tag row keyed by its slug, and its slug derived from its name |
| AdminBlogPosts.NameSlugsMembers | app/api/admin/blog/posts/route.ts:91-92 | the slugs of the names are exactly the slugs of some name in the list |
| AdminBlogPosts.AdminListPosts | app/api/admin/blog/posts/route.ts:22-46 | no admin session gives 401; otherwise 200 with every post, drafts included, as a permutation ordered by `createdAt` descending |
| AdminBlogPosts.BlogStore.FindFreeSlug | app/api/admin/blog/posts/route.ts:76-86 | the slug loop ends with a free slug: the base when it is free, otherwise `base-k` for the first step k whose slug is free |
| AdminBlogPosts.BlogStore.UpsertTag | app/api/admin/blog/posts/route.ts:92-101 | one loop step leaves the tag table as the upsert function says and returns the row of the name's slug, keeping the store's invariant |
| AdminBlogPosts.BlogStore.UpsertTags | app/api/admin/blog/posts/route.ts:89-103 | one connection per supplied name, each the row of that name's slug; the table gains exactly the names' slugs, keeps existing rows, and a new row carries the first name with its slug; posts untouched |
| AdminBlogPosts.NewPost | app/api/admin/blog/posts/route.ts:105-118 | the created row takes title and content from the body, the excerpt of the content, `featured` and `published` defaulting to false, `publishedAt` equal to the request time exactly when published, the session user as author, zero views, and the given slug and tags |
| AdminBlogPosts.BlogStore.CreateValidated | app/api/admin/blog/posts/route.ts:75-128 | after validation, the store gains exactly one post: its slug is the first free one for the title, its fields come from the body, and its tags are the rows of the names' slugs, which the tag table now holds |
| AdminBlogPosts.BlogStore.InsertPost | app/api/admin/blog/posts/route.ts:105-118 | the insert appends exactly one post under a fresh id and keeps slugs unique and `publishedAt` in step with `published` |
| AdminBlogPosts.BlogStore.CreatePost | app/api/admin/blog/posts/route.ts:57-130 | no admin session gives 401 and a missing title or content gives 400, both with the store unchanged; otherwise 201 and exactly one post appended with the chosen free slug, the excerpt, `featured`/`published` defaulting to false, `publishedAt` set iff published, the session user as author, and as tags the rows of the names' slugs |
| AdminBlogPosts.UpsertStep | app/api/admin/blog/posts/route.ts:91-101 | one more upsert advances the tag loop's invariant by one name |
| AdminBlogPosts.UpsertStepKeys | app/api/admin/blog/posts/route.ts:92-100 | the upsert of one more name adds exactly that name's slug to the tag table's keys |
| AdminBlogPosts.UpsertStepNewRows | app/api/admin/blog/posts/route.ts:93-100 | a row the loop creates carries the first name that produced its slug |
| AdminBlogPosts.UpsertStepConnections | app/api/admin/blog/posts/route.ts:101 | the connection pushed for a name is its slug's row, and earlier connections stay rows of the table |
| AdminBlogPosts.ConnectionsInNameTags | app/api/admin/blog/posts/route.ts:101 | every connection pushed is the row of one of the names' slugs |
| AdminBlogPosts.NameTagsInConnections | app/api/admin/blog/posts/route.ts:91-101 | the row of every name's slug is among the connections |
| AdminBlogPosts.ConnectionsAreNameTags | app/api/admin/blog/posts/route.ts:115-117 | the tags connected to the post are exactly the rows of the supplied names' slugs |
| BlogPosts.Limit | app/api/blog/posts/route.ts:7 | `limit` with its default; the default 10 is stated in BlogPosts.QueryDefaults, and BlogPosts.ListPublished echoes it |
| BlogPosts.Page | app/api/blog/posts/route.ts:8 | `page` with its default; the default 1 is stated in BlogPosts.QueryDefaults, and BlogPosts.ListPublished echoes it |
| BlogPosts.QueryDefaults | app/api/blog/posts/route.ts:7-8 | a given `limit` or `page` is kept; an absent or empty one becomes 10 and 1 |
| BlogPosts.Skip | app/api/blog/posts/route.ts:12 | the offset is `(page - 1) * limit` and is never negative when both are at least 1; BlogPosts.PagesCover proves each post of the ordered list lands on its page |
| BlogPosts.BuildWhere | app/api/blog/posts/route.ts:14-28 | the `where` object matches exactly the published posts, featured when `featured=true`, with a tag of the given slug when a tag is given |
| BlogPosts.Filter | app/api/blog/posts/route.ts:30-32 | the query returns each matching row as often as it is stored and no other row |
| BlogPosts.Window | app/api/blog/posts/route.ts:46-47 | `skip`/`take` returns at most `take` rows, the rows from position `skip` on |
| BlogPosts.PublishedAtKey | app/api/blog/posts/route.ts:43-45 | the sort key of `orderBy: { publishedAt: "desc" }`; its order is stated in BlogPosts.PublishedAtKeyOrder |
| BlogPosts.PublishedAtKeyOrder | app/api/blog/posts/route.ts:43-45 | published posts compare by their publication time, and every published post sorts above one without a time, as NULL sorts last in a descending order |
| BlogPosts.CeilDiv | app/api/blog/posts/route.ts:69 | `Math.ceil(a / b)` is the number r with r·b ≥ a > r·b − b |
| BlogPosts.CeilDivUnique | app/api/blog/posts/route.ts:69 | only one number has that property |
| BlogPosts.MulMonotone | app/api/blog/posts/route.ts:12 | multiplying by a non-negative limit keeps order |
| BlogPosts.ReadingTime | app/api/blog/posts/route.ts:53-55 | the reading time is the ceiling of (1 + number of whitespace runs) / 200, hence at least 1 |
| BlogPosts.WithReadingTime | app/api/blog/posts/route.ts:53-61 | the i-th returned post is the i-th stored post with its own reading time added, and that reading time is at least 1 |
| BlogPosts.ListPublished | app/api/blog/posts/route.ts:4-71 | the page is the slice from `(page-1)·limit` of length at most `limit` of a list sorted by `publishedAt` descending that holds exactly the wanted posts; every returned post is wanted; `total` counts all wanted posts; `totalPages` is its ceiling over `limit`; `page` and `limit` are echoed, defaulting to 1 and 10 |
| BlogPosts.PagesCover | app/api/blog/posts/route.ts:46-47 | every post of the ordered list appears on page k / limit + 1 at position k mod limit, and that page is at most `totalPages` |
| AdminSettings.Fold | app/api/admin/settings/route.ts:16-19 | the `reduce` over the rows; its lookup law is proved in AdminSettings.FoldLookup |
| AdminSettings.Allowed | app/api/admin/settings/route.ts:10-14 | the query returns only rows whose key is allowed |
| AdminSettings.FoldLookup | app/api/admin/settings/route.ts:16-19 | the `reduce` maps each key of the rows to the value of its last row and keeps the rest of the accumulator |
| AdminSettings.AllowedLookup | app/api/admin/settings/route.ts:10-14 | filtering by the allow-list hides exactly the keys outside it |
| AdminSettings.FoldAllowed | app/api/admin/settings/route.ts:10-19 | the folded object has exactly the allowed keys that have a row, each mapped to its stored value |
| AdminSettings.Get | app/api/admin/settings/route.ts:8-21 | `GET` never shows a key outside the allow-list, and shows each allowed stored key with its stored value |
| AdminSettings.LookupAbsent | app/api/admin/settings/route.ts:49-52 | a key without a row has no value |
| AdminSettings.Upsert | app/api/admin/settings/route.ts:49-53 | `db.settings.upsert` on the key; its laws are proved in AdminSettings.UpsertLookup, AdminSettings.UpsertKeepsKeysUnique and AdminSettings.UpsertIdempotent |
| AdminSettings.UpsertLookup | app/api/admin/settings/route.ts:49-53 | after the upsert the key has the new value, whether or not it had a row, and every other key keeps its value |
| AdminSettings.UpsertKeepsKeysUnique | app/api/admin/settings/route.ts:49-53 | the upsert adds a row only for a new key, so keys stay unique |
| AdminSettings.UpsertIdempotent | app/api/admin/settings/route.ts:49-53 | repeating the same save leaves the same table as saving once |
| AdminSettings.GetAfterUpsert | app/api/admin/settings/route.ts:10-53 | read your write: after saving an allowed key, `GET` shows the new value for it and the old values for every other key |
| AdminSettings.SettingsStore.Save | app/api/admin/settings/route.ts:31-55 | no admin session gives 401, an absent or disallowed key gives 400, both with the table unchanged; otherwise the row is upserted, `GET` changes only at that key, and the saved setting is returned |
| PublicSettings.Get | app/api/settings/route.ts:13-26 | the public object has exactly the allowed keys that have a row, with no defaults, each with its stored value |
| PublicSettings.SameAsAdmin | app/api/settings/route.ts:4-24 | the public and admin `GET` return the same object for the same table |
| Links.ListLinks | app/api/links/route.ts:7-16 | `GET` needs no session and returns every link, as a permutation ordered by `createdAt` descending |
| Links.LinkStore.CreateLink | app/api/links/route.ts:27-55 | no admin session gives 401 and a missing url or category gives 400, both with the table unchanged; otherwise exactly one link is appended with the given url and category, no clicks and a fresh id, and returned |
| HomePage.HasScheme | app/page.tsx:23 | the test that the URL starts with `http://` or with `https://`; HomePage.NormalizeUrl ensures every non-empty result passes it and that a URL passing it is kept |
| HomePage.NormalizeUrl | app/page.tsx:21-27 | the empty URL stays empty; a URL with an http or https scheme is unchanged; any other URL gets `https://` in front, so every non-empty result has an http or https scheme |
| HomePage.NormalizeUrlIdempotent | app/page.tsx:21-27 | normalising twice is normalising once |
| HomePage.VisibleLinks | app/page.tsx:38-45 | expanded, all links; collapsed, the first min(6, n) links, always a prefix |
| HomePage.HasMoreLinks | app/page.tsx:42 | `links.length > MAX_VISIBLE_LINKS`; HomePage.ButtonShownIffLinksHidden proves it holds exactly when the collapsed card hides a link |
| HomePage.ButtonShownIffLinksHidden | app/page.tsx:42-102 | the "show more" button is shown iff the collapsed card hides a link, and the hidden count n − 6 it shows is then at least 1 |
| ProgressBar.Offset | components/ui/progress.tsx:18 | the offset lies in [0, 100]; it is 0 from 100 up, 100 from 0 down, and 100 − value in between |
| ProgressBar.OffsetMonotone | components/ui/progress.tsx:18 | a larger value never gives a larger offset |

## Left out

- Storage failures and the 500 replies of every handler are not modelled. The tables are in memory and never fail.
- Concurrency is not modelled. The two queries of the public listing are sequential reads. Requests racing between the slug search, the tag upsert and the insert are not modelled; uniqueness then rests on the database.
- Ids are not modelled as cuid strings. A counter supplies fresh ids for posts, tags and links.
- `updatedAt` columns are not modelled.
- The author and category joins (`include`) are left out; so is the users table.
- The category of a new link is not looked up in the categories table, as the route does not look it up either.
- The session lookup (`getServerSession`) is left out. A handler receives the session or None.
- Clocks are left out. `new Date()` and column defaults are a `now` parameter.
- JSON parsing is left out. Body fields are `Option` values of the expected type. A field of another JSON type is not modelled.
- The value of a settings body is taken to be a string.
- BlogPosts.ListPublished: `limit` and `page` are taken as already parsed, with the defaults applied when absent or empty. It requires both to be at least 1; `parseInt` returning NaN, zero or negative values are not modelled.
- BlogPosts.ListPublished: posts with equal `publishedAt` may come in any order, as in the database. The contract states the page as a slice of some list that holds exactly the wanted posts in non-increasing order.
- JsText.ToLowerAscii: only A-Z are lower-cased; `toLowerCase` on other letters is not modelled. This changes slugs where a non-ASCII letter lower-cases to text holding an ASCII letter: the Kelvin sign U+212A becomes `k`, and U+0130 (capital I with dot above) becomes `i` followed by U+0307. So `"İstanbul"` slugs to `i-stanbul` in the program but to `stanbul` in the model. A non-ASCII letter whose lower case has no ASCII letter or digit becomes a dash in both.
- Strings are sequences of Unicode code points, not of UTF-16 code units. So the 160-character cut of an excerpt counts a character outside the Basic Multilingual Plane once, where JavaScript counts it twice.
- `getDomain` on the home page is left out. It relies on the WHATWG URL parser.
- Also left out of the home page: its React state, the `fetch` calls and the click counter `PATCH`.
- The other handlers are not part of this model:
  - post update, delete and read-by-slug;
  - link update and delete;
  - the categories route;
  - the seed route.
- The database scripts are not part of this model. Their DDL is cited only for the table constraints.
- NaN for the progress value is not modelled; the value is a real number.
