# Entry model of a feed reader, in Dafny

This project models the `Entry` record of a feed reader, written as a Rails
model. An entry is one item ingested from a syndication feed. The model covers:

- **Ingestion (`Entry.add`).** The entries table and the feeds' entry counters
  (the counter cache) live in one class, `EntryStore.Store`.
  - `Add` refuses a url that is already stored. It also refuses an item that
    fails validation: a missing or blank url, or an owning feed that does not
    exist.
  - It also refuses an item whose url another ingestion committed after this
    call's checks. That is the unique index's `RecordNotUnique`.
  - Every refusal returns `(false, None)` and changes nothing.
  - Otherwise it stores the normalised entry, increments the feed's counter and
    returns `(true, Some(entry))`.
  - Normalisation: a blank title becomes `"untitled"`; categories lose their
    nils and are lower-cased; a missing publication time becomes `now`.
- **Read accessors.**
  - `Body` falls back to `"no content"`.
  - `Text` is the body with markup stripped, then squished.
  - `Tags` de-duplicates annotations by `id`, keeping the first occurrence, and
    projects each one to five fields.
  - `AsIndexedJson` is every attribute except `annotations`.
- **Enrichment (`Entry#enrich`).** Both service results are obtained, on the
  same text, before anything is assigned. Then the annotations, the sentiment
  and the enrichment time are replaced together, or nothing changes.
- **Listing scopes.** `enriched`, `latest` (the last 24 hours) and the default
  newest-first order.

Modules:

- `Wrappers`: `Option`.
- `Strings`: whitespace, `blank?`/`presence`, `squish`, `downcase`.
- `JsonValues`: JSON values and `dig`.
- `Entries`: the entry datatype, its accessors, ingest normalisation, scopes.
- `EntryStore`: the table with its counters, `Add` and `Enrich`.

The HTML sanitiser `strip_tags` and the two calls to the text-analysis service
are function-typed parameters, so the model leaves them uninterpreted. A
service call returns `None` when it fails. The current time is a parameter
`now`, in seconds.

The title fallback in `text` (app/models/entry.rb:111) is never taken. It
tests the `body` accessor, and that accessor (app/models/entry.rb:92-94) is
never blank because it falls back to `"no content"`. `Entries.Text` keeps that
branch as unreachable, and `Entries.TextOfBlankBody` states the result: a
blank body yields the squished, tag-stripped `"no content"`.

## Model

| member | source | states |
|---|---|---|
| EntryStore.Store.Add | app/models/entry.rb:47-65 | Succeeds exactly when the url is not stored, is present and not blank, the feed exists, and no concurrent insert took the url. Every refusal returns `(false, None)` and leaves the rows, the counters and the id sequence unchanged. On success it returns the normalised entry, appends exactly that row, increments only the owning feed's counter by one, and keeps the table invariant (unique urls, counters equal to the entry counts). |
| EntryStore.Store.Enrich | app/models/entry.rb:116-125 | Both service calls get the same argument, the entry's `text`. The call succeeds exactly when both results are present. On failure no row changes. On success only row `i` changes: its annotations, sentiment and `enriched_at` become the two results and `now`, together. Counters and the table invariant are kept. |
| EntryStore.Store.constructor | app/models/entry.rb:39 | An empty table whose feeds all have a counter of zero satisfies the table invariant. |
| EntryStore.Admits | app/models/entry.rb:42-48 | An item is admitted exactly when no stored entry has its url, the url is present and not blank, the owning feed exists, and no concurrent ingestion committed the url. |
| EntryStore.FindByUrl | app/models/entry.rb:48 | `find_by(url:)`: returns a stored entry with exactly that url, and returns nothing if and only if no stored entry has it. |
| EntryStore.CountOfAppend | app/models/entry.rb:39 | Appending an entry raises the count of its own feed by one and leaves every other feed's count unchanged. |
| EntryStore.CountOfUpdate | app/models/entry.rb:39 | Rewriting a row without changing its feed leaves every feed's count unchanged. |
| EntryStore.StoredAfterAdd | app/models/entry.rb:39-44 | Appending a well-formed entry with a fresh url and the next id, and incrementing its feed's counter, keeps the whole table invariant: unique urls and ids, well-formed rows of existing feeds, and counters equal to the entry counts. |
| EntryStore.StoredAfterEnrich | app/models/entry.rb:116-125 | Replacing one row's three enrichment fields keeps the whole table invariant, counters included. |
| EntryStore.SecondAddRefused | app/models/entry.rb:42-48 | Once an entry with some url is stored, any later ingestion of an item with that url is refused, whatever its feed or other fields. |
| Entries.TitleOf | app/models/entry.rb:52 | The stored title is `"untitled"` for a nil, empty or whitespace-only source title, and the source title unchanged otherwise. It is never blank. |
| Entries.Compact | app/models/entry.rb:56 | `compact` keeps exactly the present elements and is never longer than its input. |
| Entries.CompactAppend | app/models/entry.rb:56 | `compact` distributes over concatenation, so order and duplicates are preserved. |
| Entries.CompactNoNils | app/models/entry.rb:56 | On a list without nils, `compact` returns every element, in place. |
| Entries.DowncaseAll | app/models/entry.rb:56 | `map(&:downcase)` keeps the length and lower-cases each element in place. |
| Entries.CategoriesOf | app/models/entry.rb:56 | An absent list gives `[]`. The result is no longer than the source and every category is lower case. |
| Entries.CategoriesAppend | app/models/entry.rb:56 | Stored categories of a concatenation are the concatenation of the stored categories, so order and duplicates are kept. |
| Entries.CategoriesMembers | app/models/entry.rb:56 | A category is stored exactly when it is the lower-cased form of some non-nil source category. |
| Entries.NewEntry | app/models/entry.rb:50-58 | The new row keeps the item's url, summary and entry id, and belongs to the given feed. Its title is the source title when that is present and not blank, otherwise `"untitled"`. It is never blank, and is `"untitled"` exactly when the source title is missing or blank (or literally `"untitled"`). `published_at` is the source time if present, else `now`. Categories are normalised and the enrichment fields are unset. |
| Entries.Body | app/models/entry.rb:92-94 | Returns the stored body when it is present and not blank, and `"no content"` otherwise. The result is never blank. |
| Entries.Text | app/models/entry.rb:110-114 | The result is squished: no whitespace at either end, and only single plain spaces inside. It has the same non-whitespace characters, in order, as the tag-stripped body. |
| Entries.TextSeparatesWords | app/models/entry.rb:110-114 | When the tag-stripped body is two pieces of text around a whitespace run, `text` is the first piece squished, one space, and the second piece squished: words are kept apart by exactly one space. |
| Entries.TextOfBlankBody | app/models/entry.rb:110-114 | For a nil or blank stored body, `text` is the squished, tag-stripped `"no content"`, not the title. |
| Entries.FirstIndex | app/models/entry.rb:99 | Gives the position of the first annotation with a given id; no earlier annotation has that id. |
| Entries.UniqFrom | app/models/entry.rb:99 | The ids of the kept annotations are pairwise distinct and avoid the ids already seen. Each kept annotation comes from the input. |
| Entries.UniqById | app/models/entry.rb:99 | `uniq { h['id'] }` returns annotations with pairwise distinct ids and is no longer than its input. |
| Entries.UniqFromFirst | app/models/entry.rb:99 | Every kept annotation is the first occurrence of its id in the input. The kept annotations appear in the order of those first occurrences. |
| Entries.UniqFromIds | app/models/entry.rb:99 | The kept ids are exactly the input's ids minus those already seen. |
| Entries.UniqByIdFirstOccurrences | app/models/entry.rb:99 | `uniq` by id keeps exactly one annotation per id of the input: the first occurrence, in order. |
| Entries.Ids | app/models/entry.rb:99 | The id set holds exactly the ids of the annotations: each annotation's id is in it, and each id in it belongs to some annotation. |
| JsonValues.Dig | app/models/entry.rb:101-105 | `dig` with one key gives the value stored under the key, and nil when the key is absent. |
| Entries.TagOfOnlyTagKeys | app/models/entry.rb:100-106 | A tag is read from the five keys `uri`, `spot`, `label`, `confidence` and `categories` only: two annotations that agree on those keys give the same tag. |
| Entries.TagOfBare | app/models/entry.rb:100-106 | An annotation with none of the five keys gives a tag whose five fields are all nil. |
| Entries.TagOf | app/models/entry.rb:100-106 | Each of the five keys `uri`, `spot`, `label`, `confidence` and `categories` that the annotation has is carried into the tag with its value. |
| Entries.Tags | app/models/entry.rb:96-108 | Empty when annotations are nil or empty. Otherwise the tags project the id-de-duplicated annotations, one for one and in order, and there are at most as many as annotations. |
| Entries.TagsOfRepeatedBatch | app/models/entry.rb:96-108 | Annotations with ids 1, 1, 2 yield exactly two tags, projected from the first and the third. |
| Entries.Attributes | app/models/entry.rb:85 | `as_json` has exactly the entry's attribute names as keys. |
| Entries.AsIndexedJson | app/models/entry.rb:84-86 | Has no `annotations` key. Every other attribute is present with the value `as_json` gives it. |
| Entries.IndexedJsonIgnoresAnnotations | app/models/entry.rb:84-86 | The indexed document is the same whatever the entry's annotations are. |
| Entries.WithEnrichment | app/models/entry.rb:120-122 | Sets annotations, sentiment and `enriched_at` (non-nil, equal to `now`) and changes no other attribute. |
| Entries.EnrichOverwrites | app/models/entry.rb:116-125 | A second enrichment overwrites the first completely. Nothing is merged. |
| Entries.EnrichKeepsText | app/models/entry.rb:137-142 | Enrichment does not change `text`, the input both service calls receive. |
| Entries.Where | app/models/entry.rb:34-35 | A filter keeps exactly the listed entries that satisfy its condition, each as many times as it is listed and no other entry, and keeps a newest-first listing newest-first. |
| Entries.EnrichedScope | app/models/entry.rb:34 | Keeps exactly the entries whose `enriched_at` is set, each as many times as it is listed, preserving newest-first order. |
| Entries.LatestScope | app/models/entry.rb:35 | Keeps exactly the entries published at or after 24 hours before `now`, each as many times as it is listed, preserving newest-first order. |
| Entries.Insert | app/models/entry.rb:32 | Inserting into a newest-first listing gives a newest-first permutation of the listing plus the new entry. |
| Entries.DefaultOrder | app/models/entry.rb:32 | The default scope orders by `published_at` descending, and the result is a permutation of the rows. |
| Strings.SquishSquished | app/models/entry.rb:113 | `squish` output has no whitespace at either end, and inside only single plain spaces. |
| Strings.SquishKeepsContent | app/models/entry.rb:113 | `squish` keeps every non-whitespace character, in order. |
| Strings.SquishSeparates | app/models/entry.rb:113 | A whitespace run between a piece ending in non-whitespace and a piece starting with non-whitespace becomes exactly one space between the two squished pieces. |
| Strings.SquishFixed | app/models/entry.rb:113 | A string that is already squished is returned unchanged. |
| Strings.SquishIdempotent | app/models/entry.rb:113 | Squishing twice is the same as squishing once. |
| Strings.Collapse | app/models/entry.rb:113 | Replacing whitespace runs gives the empty string exactly for the empty string, and keeps a leading non-whitespace character in first place. |
| Strings.CollapseIsCollapsed | app/models/entry.rb:113 | After replacing whitespace runs, every whitespace character is a plain space and no two are adjacent. |
| Strings.CollapseKeepsContent | app/models/entry.rb:113 | Replacing whitespace runs keeps every non-whitespace character, in order. |
| Strings.CollapseRun | app/models/entry.rb:113 | A non-empty whitespace run in front of text that starts with non-whitespace (or of nothing) becomes exactly one space. |
| Strings.CollapseAppend | app/models/entry.rb:113 | When the first piece is empty or ends with non-whitespace, no run spans the boundary: the two pieces are collapsed independently and concatenated. |
| Strings.CollapseLast | app/models/entry.rb:113 | Replacing whitespace runs keeps a final non-whitespace character in last place. |
| Strings.CollapseSeparates | app/models/entry.rb:113 | Text, a non-empty whitespace run and text starting with non-whitespace collapse to the first piece collapsed, one space and the second piece collapsed. |
| Strings.CollapseFixed | app/models/entry.rb:113 | A string with only single plain spaces is unchanged by collapsing. |
| Strings.TrimStart | app/models/entry.rb:113 | The result is the suffix left after the leading whitespace: the dropped prefix is blank, and the result starts with a non-whitespace character or is empty. |
| Strings.TrimStartContent | app/models/entry.rb:113 | Stripping the front keeps every non-whitespace character, in order. |
| Strings.TrimStartAppend | app/models/entry.rb:113 | Stripping the front of a non-blank piece followed by more text leaves the following text untouched. |
| Strings.TrimStartBlank | app/models/entry.rb:113 | A blank run in front of text that starts with non-whitespace is stripped completely. |
| Strings.TrimEnd | app/models/entry.rb:113 | The result is the prefix left before the trailing whitespace: the dropped suffix is blank, and the result ends with a non-whitespace character or is empty. |
| Strings.TrimEndContent | app/models/entry.rb:113 | Stripping the back keeps every non-whitespace character, in order. |
| Strings.TrimEndAppend | app/models/entry.rb:113 | Stripping the back of text followed by a non-blank piece leaves the leading text untouched. |
| Strings.StripJoin | app/models/entry.rb:113 | Stripping both ends of two pieces joined by one space, where the first ends and the second starts with non-whitespace, strips each piece on its outer side only. |
| Strings.Presence | app/models/entry.rb:93 | `presence` is the string itself exactly when it is not blank, and nil otherwise. |
| Strings.BlankIffNoContent | app/models/entry.rb:52 | A string is blank exactly when it has no non-whitespace character. |
| Strings.DowncaseChar | app/models/entry.rb:56 | An ASCII capital `A`-`Z` becomes the lower-case letter 32 code points above it. Every other character is unchanged, and the result is never a capital. |
| Strings.Downcase | app/models/entry.rb:56 | `downcase` keeps the length, lower-cases each character in place as `DowncaseChar` does, and leaves no upper-case letter. |
| Strings.DowncaseLowerFixed | app/models/entry.rb:56 | A string that is already lower case is left unchanged. |

## Left out

- The full-text search configuration and `self.search` (app/models/entry.rb:10-29, 79-81). Ranking, prefix matching and highlighting are done by the database's text search. Nothing in this file implements them.
- `self.to_csv` and `feed_url` (app/models/entry.rb:67-77, 88-90): CSV formatting through a library, and a read of the feed record. The feed model is not part of this model.
- `Webhook::Observable`, `webhook_scope` and `webhook_payload` (app/models/entry.rb:2, 129-135). These are save callbacks that deliver over the network.
- The `random` scope (nondeterministic order) and the unused `MAX_ROWS_LIMIT`.
- The text-analysis service, the HTML sanitiser, and the clock are parameters. Their behaviour is not modelled. A service failure is a `None` result rather than a raised error.
- Concurrency: the insert race appears only as the set `concurrent` of urls whose insert the unique index rejects. Transactions and locking are not modelled.
- The owning-feed check assumes `belongs_to` requires its feed, the framework default since Rails 5. A missing feed is a validation failure.
- The id sequence: ids are handed out in order from `nextId`. The gap that a failed insert leaves in a database sequence is not modelled.
- Entries.Attributes: the `searchable` text-search column (app/models/entry.rb:17) and the `created_at` and `updated_at` timestamps are not entry fields here, so `as_json` and `as_indexed_json` lack those keys. The search column is maintained by the database and the timestamps by the framework. Times are JSON integers rather than ISO 8601 strings.
- `save!` inside `enrich` re-runs the validations. The table invariant guarantees that they pass, so the model has no failure branch for them.
- Strings.Downcase: maps only ASCII `A`-`Z`. Ruby's full Unicode case mapping is not modelled.
- Strings.Squish: Ruby's `strip` also removes NUL characters at both ends. The model strips whitespace only.
- Confidence and other floating-point values are carried as JSON reals and never computed on.
