# kenja_sitemapgen in Dafny

This project models the core of `kenja_sitemapgen`, a batch tool that
turns a collection of stored documents into search-engine submission files.
It also proves properties of that model.

- **The sitemap partition writer** (`Generator`, module `Sitemap`). It
  appends pre-rendered `<url>` fragments to `sitemap{n}.xml`. Once a
  partition holds `max` entries, it closes that partition with the footer
  and opens the next one with the header.
- **The sitemap index writer** (`Indexer`, module `SitemapIndex`). It
  writes one `index.xml` with a `<sitemap>` entry per recorded partition
  name. The entry's `loc` is the base URL, a slash and the name, inserted
  without escaping.
- **The IndexNow batch accumulator** (`RequestGenerator`, module
  `IndexNow`). It buffers URLs. When a push leaves more than `max` of
  them buffered, it writes the whole buffer (`max + 1` URLs) as
  `indexnow{n}.json`. `finish` writes the remainder, even an empty one,
  under the current number.
- **The request record** (`Request`, module `IndexNowModel`). It has
  its four JSON members, two of them renamed.
- **The driver loop** (module `Driver`). It keeps documents whose
  `item_type` is 1 or negative. It offers the English name, then the
  Japanese name, as search-page URLs. One seen-map is shared by both
  languages. Each URL is `&`-escaped into the `<url>` template whose
  `%LASTMOD%` was filled once, and the result goes to a `Generator` of 1000
  entries per partition.

The working directory is the class `Files.Disk`:

- Text files form a map from file names to contents. Opening with
  create-and-append and writing a string is `Append`.
- Batch files form a map from file names to the `Request` each one
  holds. `fs::write` is `Store`, which replaces the old file.
- File names are the datatype `SitemapFile(n) | IndexFile | BatchFile(n)`,
  so no decimal formatting is modelled.

Each writer keeps ghost state that records what has been written so far:
- `Generator`: the closed partitions and the open one.
- `Indexer`: the calls made.
- `RequestGenerator`: the batches written.

Each writer's `Valid()` ties the disk to that history through a function
of it: `Directory`, `IndexDirectory` or `Emitted`. Lemmas then state what
every file holds.

`str::replace` is modelled by `Text.Replace`. It scans left to right,
replaces non-overlapping matches and never rescans inserted text. Entry
templates are split into literal markup around a `%LOC%` hole and a
`%LASTMOD%` hole.

The code differs from the intended design of the tool in several places.
The model follows the code:

- Nothing writes the closing `</urlset>` to the partition that is open at
  the end of a run. There is no `finish` on `Generator`, and the driver
  only flushes (src/main.rs:109).
- Nothing notifies the `Indexer` when a partition is opened. main.rs
  compiles only `mod generator` (src/main.rs:1), so `Indexer` and
  `RequestGenerator` are modelled as standalone units. No composition of
  them is claimed.
- `Generator` writes its argument verbatim. Escaping happens in the
  driver before the call (src/main.rs:87, 101).
- When the number of writes is a multiple of `max`, the last partition
  holds only the header: zero entries, not "1..=max". This is
  `Sitemap.Generator.HeaderOnlyAtMultiple`.
- `RequestGenerator::finish` writes a batch even when the buffer is
  empty. It does not reset `idx`.

## Model

| member | source | states |
|---|---|---|
| Text.Replace | src/main.rs:47 | replacing a pattern by itself leaves the text unchanged, and a replacement of the pattern's length keeps the text's length |
| Text.Escape | src/main.rs:87 | escaping `&` as `&amp;` lengthens the text by exactly four characters per `&` |
| Text.ReplaceAbsent | src/main.rs:87 | replacing a pattern whose first character does not occur leaves the text unchanged |
| Text.UnescapeEscape | src/main.rs:87 | escaping `&` as `&amp;` loses nothing: unescaping the result gives the original URL back |
| Text.EscapedAmpersands | src/main.rs:101 | every `&` in escaped text begins an `&amp;` entity |
| Text.EscapeIdentity | src/main.rs:87 | a URL without `&` is written unchanged |
| Text.FillLastmod | src/main.rs:47 | filling `%LASTMOD%` puts the date in its hole and keeps the `%LOC%` hole and the markup |
| Text.FillLoc | src/main.rs:87 | filling `%LOC%` inserts the URL verbatim, and a `%` inside the URL is not rescanned |
| Text.FillTemplate | src/sitemap/indexer.rs:35-47 | filling `%LASTMOD%` and then `%LOC%` gives markup, URL, markup, date, markup, when the date has no `%` |
| IndexNowModel.Fields | src/indexnow/model.rs:3-11 | a request serializes to exactly four members, in order, under `host`, `key`, `keyLocation`, `urlList` |
| IndexNowModel.FieldNames | src/indexnow/model.rs:4-10 | the member names are those four, each used once |
| IndexNowModel.Member | src/indexnow/model.rs:3-11 | a member lookup finds a value exactly when a member of that name exists, and returns that member's value |
| IndexNowModel.FromFields | src/indexnow/model.rs:3-11 | a request is read back only when all four members are present, and then each field is the first member of its name |
| IndexNowModel.FieldsRoundTrip | src/indexnow/model.rs:3-11 | reading the serialized members back by name gives the same request |
| Files.Disk.Append | src/generator.rs:21-28 | an append-mode write adds the string after the file's old content (a missing file reads as empty), touching no other file |
| Files.Disk.Store | src/indexnow/generator.rs:38 | `fs::write` replaces the named batch file with the request, touching no other file |
| Sitemap.ClosedFilesAt | src/generator.rs:49-55 | each closed partition holds its old text, the header, its entries and the footer; other files are unchanged |
| Sitemap.DirectoryAt | src/generator.rs:28-55 | closed partitions as above; the open partition holds its old text, the header and its entries, with no footer; later partitions and other files are unchanged |
| Sitemap.DirectoryAppend | src/generator.rs:45 | appending a fragment to the open partition is adding it to that partition's entries |
| Sitemap.DirectoryClose | src/generator.rs:49-55 | appending the footer and then the next partition's header closes the open partition and opens an empty one |
| Sitemap.Generator.NewFile | src/generator.rs:21-30 | opening a partition appends the header after any existing content instead of truncating |
| Sitemap.Generator.constructor | src/generator.rs:32-42 | counters start at 0, the open file is `sitemap0.xml`, it gains the header, nothing is written yet |
| Sitemap.Generator.Write | src/generator.rs:44-59 | the fragment is appended verbatim and recorded; with no rotation, `idx` goes up by one; otherwise footer, next file, header, `idx = 0`; the invariant is kept |
| Sitemap.Generator.Rotate | src/generator.rs:48-56 | a full partition gets the footer, `file_idx` goes up by one, the new partition starts with the header, `idx` becomes 0, and the entries written are unchanged |
| Sitemap.Generator.Flush | src/generator.rs:61-64 | flush changes neither the counters nor any file; in particular it appends no footer |
| Sitemap.Generator.Counters | src/generator.rs:46-55 | after n writes, `file_idx = n / max` and `idx = n % max` (with `max = 0` read as 1) |
| Sitemap.Generator.ClosedPartition | src/generator.rs:45-55 | partition k < `file_idx` is header, then write-order entries k·c to (k+1)·c, then footer, where c is `max`, or 1 when `max` is 0 because the `>=` test then rotates after every write |
| Sitemap.Generator.OpenPartition | src/generator.rs:28-45 | the open partition is header plus the last `idx` entries, with no footer |
| Sitemap.Generator.Untouched | src/generator.rs:21-30 | partitions beyond the open one, and every other file, keep their original text |
| Sitemap.Generator.HeaderOnlyAtMultiple | src/generator.rs:48-55 | when the write count is a multiple of `max`, the open partition holds only the header |
| Sitemap.Generator.RotateEveryWrite | src/generator.rs:48 | with `max = 0`, every write rotates, and partition k holds exactly the k-th entry |
| SitemapIndex.EntryTemplate | src/sitemap/indexer.rs:14-18 | the index entry template is `<sitemap>` markup around a `%LOC%` and a `%LASTMOD%` hole |
| SitemapIndex.Loc | src/sitemap/indexer.rs:46 | an entry's URL is the base URL, then `/`, then the partition name |
| SitemapIndex.Piece | src/sitemap/indexer.rs:45-55 | finishing appends the footer; recording a name, in a template that is the `<sitemap>` markup, the `%LOC%` hole and text without `%`, puts the name's URL in the hole and keeps the rest |
| SitemapIndex.FilledEntry | src/sitemap/indexer.rs:35-47 | when the date has no `%`, the prefilled template with the URL in `%LOC%` is exactly the reference entry |
| SitemapIndex.EntryInjective | src/sitemap/indexer.rs:46-47 | entries for different names differ: the name can be read back from the entry |
| SitemapIndex.IndexDirectoryStep | src/sitemap/indexer.rs:48-53 | appending one call's text to `index.xml` is making that call |
| SitemapIndex.RenderedRecords | src/sitemap/indexer.rs:45-49 | when the date has no `%`, recording names in turn renders one entry per name, in call order, all with the same date |
| SitemapIndex.Indexer.Init | src/sitemap/indexer.rs:38-42 | the writer starts with the prefilled template, the base URL and no calls |
| SitemapIndex.Indexer.New | src/sitemap/indexer.rs:27-43 | `index.xml` gains the header after its old content; a missing base URL gives no writer, but the header is already written |
| SitemapIndex.Indexer.Write | src/sitemap/indexer.rs:45-50 | the template with base URL + `/` + name, unescaped, in `%LOC%` is appended to `index.xml` and recorded; when the date has no `%`, that fragment is the `<sitemap>` entry with this `loc` and the construction-time date |
| SitemapIndex.Indexer.Finish | src/sitemap/indexer.rs:52-55 | the footer and nothing else is appended |
| SitemapIndex.Indexer.Flush | src/sitemap/indexer.rs:57-60 | the file content is unchanged |
| SitemapIndex.Indexer.CompleteIndex | src/sitemap/indexer.rs:27-55 | when the date has no `%`, names recorded and then finished give header, one entry per name in order, then footer |
| SitemapIndex.Indexer.OnlyIndex | src/sitemap/indexer.rs:28-31 | no file other than `index.xml` changes |
| IndexNow.EmittedAt | src/indexnow/generator.rs:30-38 | batch file k holds a request with the construction-time host, key and key location and the k-th batch's URLs; other files are unchanged |
| IndexNow.EmittedSnoc | src/indexnow/generator.rs:36-38 | writing one more batch stores it under the next number |
| IndexNow.EmittedUrls | src/indexnow/generator.rs:29-56 | reading the batch files in number order gives the batches' URLs concatenated |
| IndexNow.RequestGenerator.constructor | src/indexnow/generator.rs:16-26 | `file_idx = 0`, `idx = 0`, empty buffer; `max`, host, key and key location are stored unchanged |
| IndexNow.RequestGenerator.WriteBatch | src/indexnow/generator.rs:28-40 | the buffer is taken, leaving it empty, and written as `indexnow{file_idx}.json` with this generator's host and key |
| IndexNow.RequestGenerator.Push | src/indexnow/generator.rs:42-53 | the URL is appended to the buffer; if more than `max` are then buffered, all `max + 1` are written, the buffer is emptied, `file_idx` goes up by one and `idx = 0` |
| IndexNow.RequestGenerator.Finish | src/indexnow/generator.rs:55-58 | the remainder, even if empty, is written as `indexnow{file_idx}.json`; `file_idx` and `idx` are not changed |
| IndexNow.RequestGenerator.FullBatch | src/indexnow/generator.rs:30-50 | batch k < `file_idx` holds pushed URLs k·(max+1) to (k+1)·(max+1), under the construction-time host and key |
| IndexNow.RequestGenerator.NothingLost | src/indexnow/generator.rs:29-49 | mid-run, the written batches in order followed by the buffer are exactly the pushed URLs |
| IndexNow.RequestGenerator.BatchesInOrder | src/indexnow/generator.rs:29-58 | after finish, the URL lists of batch files 0..=`file_idx` concatenated are exactly the pushed URLs |
| IndexNow.RequestGenerator.Counters | src/indexnow/generator.rs:43-50 | between pushes `idx` equals the buffer length, is at most `max`, and is the pushed count mod `max + 1` |
| Driver.UrlTemplate | src/main.rs:25-29 | the `<url>` entry template is markup around a `%LOC%` and a `%LASTMOD%` hole |
| Driver.Admitted | src/main.rs:54-79 | a document passes both filters exactly when `item_type` is 1 or negative |
| Driver.DocCandidates | src/main.rs:77-106 | a filtered document offers nothing; otherwise one candidate per present name, with the English one before the Japanese one |
| Driver.QueryPairs | src/main.rs:83-99 | the query is `keyword`, then `item-type=all`, then `lang=ja` for a Japanese name |
| Driver.Loc | src/main.rs:83-86 | a name's URL is the base URL, then `?`, then the encoded query pairs |
| Driver.Xml | src/main.rs:87 | in a template that is the `<url>` markup, the `%LOC%` hole and text without `%`, the escaped URL takes the hole's place and the rest is kept |
| Driver.CandidateSnoc | src/main.rs:82-104 | a candidate is kept exactly when its name is not yet seen, and its name joins the seen names |
| Driver.WriteCandidate | src/main.rs:82-91 | an unseen name is written once as the escaped-URL entry and inserted into the map; a seen name writes nothing and leaves the map unchanged |
| Driver.WriteField | src/main.rs:81-92 | an absent field writes nothing; a present one is handled as above |
| Driver.WriteNames | src/main.rs:81-106 | the English name is handled before the Japanese name, and both use the same map |
| Driver.GenerateSitemap | src/main.rs:47-109 | the generator receives exactly the entries of the first occurrences of the admitted names, in order; the map holds all those names; write count equals map size |
| Driver.WriteCount | src/main.rs:89-104 | the number of writes equals the number of distinct names seen |
| Driver.KeysOfMeaning | src/main.rs:82-95 | a name is in the seen set exactly when some earlier candidate carries it |
| Driver.FirstOccurrencesKeys | src/main.rs:82-104 | every name seen is written |
| Driver.FirstOccurrencesDistinct | src/main.rs:82-104 | no name is written twice, in either language |
| Driver.FirstWins | src/main.rs:82-90 | a candidate whose name has not occurred earlier is written |
| Driver.SameNameBothLanguages | src/main.rs:82-95 | a document whose Japanese name equals its English name writes at most the English entry |
| Driver.EntryShape | src/main.rs:87-101 | when the date has no `%`, an entry is `<url>` markup around the escaped URL and the date; the escaped URL unescapes back to the URL; each of its `&` begins `&amp;` |

## Left out

- MongoDB fetch and collect (src/main.rs:36-45), `dotenvy` and `env::var` reads, and tracing are left out. They are I/O and configuration. The resolved values are parameters: `lastmod`, `baseUrl`, and the `BASE_URL_SITEMAP` value as an `Option`.
- Async execution is left out. Every call runs to completion before the next one, so the model is sequential.
- Percent-encoding by `form_urlencoded::Serializer` is the parameter `encode` of `Driver.GenerateSitemap`. It is a function of the ordered pair list. The library's algorithm is not part of this model.
- `serde_json::to_string` is left out. A batch file holds the `Request` value. `IndexNowModel.Fields` models only the member names and their order, not the JSON text.
- Short writes are left out. The code calls `write`, not `write_all`. The model assumes that each call appends the whole string.
- I/O error paths (`?`) are not modelled; every write succeeds. The one exception is the missing base URL in `Indexer::new`, which is modelled.
- Flush durability is not modelled. Flushing changes nothing in the model.
- The commented-out block (src/main.rs:58-75) is dead code and is not modelled.
- The document fields `_id` and `unique` are carried in `Driver.FlatDocument` but never read, as in the live code.
- Sitemap.Generator.Write: counters are unbounded naturals, so 32-bit overflow of `idx` and `file_idx` is not modelled. Overflow would need more than 4·10⁹ writes.
- IndexNow.RequestGenerator.Push: counters are unbounded naturals, so 32-bit overflow is not modelled.
- IndexNow.RequestGenerator.Push: requires the state between pushes. A push after `finish` is not modelled. `finish` leaves `idx` as it was but empties the buffer, so the source's counter would no longer match the buffer.
- SitemapIndex.FilledEntry: requires a date without `%`. The `LAST_MOD` value is filled in first, so a `%LOC%` inside the date becomes a second hole, and the `%LOC%` fill then puts the URL in both places.
- SitemapIndex.RenderedRecords: requires a date without `%`, for the same reason.
- SitemapIndex.Indexer.Write: the entry shape is promised only for a date without `%`. What is appended is still stated for every date.
- SitemapIndex.Indexer.CompleteIndex: requires a date without `%`, for the same reason.
- Driver.EntryShape: requires a date without `%`, for the same reason. `Driver.GenerateSitemap` states its writes for every date.
- IndexNowModel.FromFields: takes the first member when a name is repeated. The derived `Deserialize` instead rejects a repeated member with a `duplicate_field` error. Unknown members are ignored in both.
- IndexNow.RequestGenerator.Finish: requires the state between pushes, so a second `finish` is not modelled. In the source a second `finish` would overwrite `indexnow{file_idx}.json` with an empty `urlList`. No caller makes that call.
- Text.Replace: requires a non-empty pattern. Every pattern the code uses is a non-empty literal, so Rust's behaviour for an empty pattern is not modelled.
- Indexer and RequestGenerator are not wired to the sitemap run, because the code never calls them.
