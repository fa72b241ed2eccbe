# Triove website: a Dafny model of its logic

The Triove site is mostly presentation, but a few parts of it hold real,
sequential logic. This project models those parts as immutable datatypes and
pure functions, and proves what the code promises about them.

- **Contact submissions** (`convex/contacts.ts`). `create`, `list` and
  `updateStatus` work over an abstract Convex table. The table is a map from
  ids to documents, an insertion order and an id counter (module `Store`).
- **Blog posts** (`convex/blog.ts`). `create` follows the `publishedAt` rule.
  `getPublished` keeps the published posts, newest first. `getBySlug` is an
  exact-match `.unique()` lookup.
- **Admin page** (`pages/Admin.tsx`). The status-plus-search filter, and the
  CSV export of the filtered rows with the `escapeCsv` quoting. Module `Csv`
  adds a reader for the quoting style of section 2 of RFC 4180, so the export
  can be read back: `Csv.DocumentRoundTrip` and `Admin.ExportRoundTrip`.
- **Contact form** (`pages/Contact.tsx`). Building the submitted payload
  (trimming the fields, dropping blank optional ones), `handleChange`, the
  browser's `required` check that gates a submit, and the loading,
  reset-on-success and retain-on-failure transitions.
- **Detail pages** (`pages/ServiceDetail.tsx`, `pages/IndustryDetail.tsx`).
  `toSlug` (module `Slug`), the slug-keyed tables built from the eight
  service titles and the eight industry names, and the route lookup.

String primitives live in module `Text`:

- `trim` strips ECMAScript's white-space and line-terminator set.
- `toLowerCase` maps ASCII letters only.
- `includes` is proved equal to a reference substring relation.

Module `Seqs` supplies filtering, subsequences, distinctness and mapping.

Nothing is I/O:

- the clock (`Date.now`, the creation time) is a `now: nat` parameter;
- the ISO date rendering is an `iso: nat -> string` parameter;
- the network call behind a submission is an `Outcome` parameter.

## Model

| member | source | states |
|---|---|---|
| `Store.Insert` | src/convex/contacts.ts:14-18 | `db.insert` adds exactly one document under an id not used before, stamped with the clock value. Every earlier document is kept unchanged, the size grows by one, and the new id goes last in insertion order. |
| `Store.Replace` | src/convex/contacts.ts:35 | `db.patch` on a stored id replaces only that document's user fields. The id, the creation time, the insertion order and all other documents are kept. |
| `Store.Desc` | src/convex/contacts.ts:25 | `.order("desc").collect()` yields every stored document exactly once, with no others, one per id. |
| `Store.DescIsReverseInsertion` | src/convex/contacts.ts:25 | The descending listing is the insertion order reversed: position `i` holds the document inserted `i`-th from last. |
| `Store.DescEmpty` | src/convex/contacts.ts:25 | An empty table lists nothing. |
| `Store.EmptyChronological` | src/convex/contacts.ts:14 | An empty table trivially has creation times growing with insertion order. |
| `Store.InsertChronological` | src/convex/contacts.ts:14 | Inserting at a clock value later than every stored creation time keeps creation times growing along the insertion order. |
| `Store.ReplaceChronological` | src/convex/contacts.ts:35 | A patch does not disturb the chronology: creation times keep growing with insertion order. |
| `Store.DescByCreationTime` | src/convex/blog.ts:32 | When creation times grow with insertion, the descending listing has strictly decreasing creation times: newest first by `_creationTime`. |
| `Store.DescAfterInsert` | src/convex/blog.ts:32 | After an insert, the descending listing is the new document followed by the previous listing: newest first. |
| `Store.DescAfterReplace` | src/convex/contacts.ts:35 | A patch keeps every document at its place in the listing. Only the patched document changes. |
| `Contacts.Create` | src/convex/contacts.ts:13-19 | `create` returns the id of one new record with status `new`. The other fields are the arguments verbatim, and absent optional fields stay absent. Empty strings are accepted. Old records are unchanged and the store grows by one. |
| `Contacts.List` | src/convex/contacts.ts:22-27 | `list` returns exactly the stored records, each once, and the length equals the store size. |
| `Contacts.ListAfterCreate` | src/convex/contacts.ts:25 | After `create`, `list` is the new record followed by the old list: newest first. |
| `Contacts.UpdateStatus` | src/convex/contacts.ts:29-37 | `updateStatus` sets the status of record `id`. The record's other fields and all other records are unchanged, and the store keeps its ids and size. |
| `Contacts.UpdateStatusIdempotent` | src/convex/contacts.ts:35 | Applying the same status twice gives the same store as applying it once. |
| `Contacts.AnyTransitionAllowed` | src/convex/contacts.ts:32-35 | Any status can move to any status, and moving back restores the original store exactly. |
| `Contacts.ListAfterUpdateStatus` | src/convex/contacts.ts:35 | A status update keeps the order of `list`. Only the updated record's entry changes, and only in its status. |
| `Blog.Create` | src/convex/blog.ts:15-22 | `publishedAt` is set, to the clock value, if and only if `isPublished` is true. All other arguments are stored verbatim. There is no slug-uniqueness check, and old posts are unchanged. |
| `Blog.GetPublished` | src/convex/blog.ts:26-35 | Returns exactly the stored posts with `isPublished` true, as a subsequence of the newest-first listing. |
| `Blog.CreateUnpublishedHidden` | src/convex/blog.ts:16-21 | Creating an unpublished post leaves `getPublished` unchanged. |
| `Blog.CreatePublishedFirst` | src/convex/blog.ts:31-32 | A newly created published post heads `getPublished`, followed by the previous published posts. |
| `Blog.WithSlug` | src/convex/blog.ts:42 | The `by_slug` index range holds exactly the stored posts with that slug, each once. |
| `Blog.GetBySlug` | src/convex/blog.ts:37-45 | `.unique()` gives nothing when no post has the slug, and an error when more than one does. Otherwise it gives the only post with that slug. |
| `Blog.GetBySlugAnswers` | src/convex/blog.ts:43 | When at most one post has the slug, the lookup answers without error. |
| `Blog.DuplicateSlugBreaksLookup` | src/convex/blog.ts:4-22 | Because `create` does not check slugs, creating a post whose slug is already used makes `getBySlug` for that slug fail. |
| `Text.Trim` | src/pages/Contact.tsx:36-41 | `trim` returns an infix of its input with only white space before and after it, and none at its own ends. It is empty exactly for all-white-space input. |
| `Text.TrimIdempotent` | src/pages/Admin.tsx:30 | Trimming twice is trimming once. |
| `Text.ToLower` | src/pages/Admin.tsx:30-37 | Lower-casing works character by character and keeps the length. `A`-`Z` become `a`-`z`, and every other character stays in place. |
| `Text.TrimToLowerCommute` | src/pages/Admin.tsx:30 | Trimming and lower-casing commute. |
| `Text.Includes` | src/pages/Admin.tsx:33-37 | `includes` holds exactly when the query occurs as a contiguous infix. |
| `Admin.Filtered` | src/pages/Admin.tsx:26-40 | `undefined` exactly while the list is unloaded. Otherwise the result is a subsequence of the list in list order. A row is kept iff it passes the status filter, and the trimmed, lower-cased query is empty or an infix of its lower-cased name, email, company (missing as ""), subject or message. |
| `Admin.MatchesSearchIff` | src/pages/Admin.tsx:31-37 | The chain of `includes` tests matches exactly when the query is empty or occurs in one of the five searched fields. |
| `Admin.FilteredCount` | src/pages/Admin.tsx:28-39 | Each kept row appears as often as in the list. A dropped row does not appear. |
| `Admin.ShowAllWhenUnfiltered` | src/pages/Admin.tsx:29-32 | Status "all" with an empty or all-white-space query returns the whole list. |
| `Admin.SearchIgnoresQueryCase` | src/pages/Admin.tsx:30 | The match does not depend on the case of the query's letters. |
| `Admin.SearchIgnoresPhoneAndStatus` | src/pages/Admin.tsx:33-37 | Changing a row's phone or status never changes whether the search matches it. |
| `Admin.ExportCsv` | src/pages/Admin.tsx:52-68 | No CSV, only the "No rows to export" notice, exactly when the filtered rows are undefined or empty. Otherwise the text starts with the header line. |
| `Admin.HeaderEncoding` | src/pages/Admin.tsx:57 | None of the eight headers needs quoting, so the header line is the headers joined by commas. |
| `Admin.RowEncoding` | src/pages/Admin.tsx:58-67 | Each exported line is the CSV encoding of the row's eight values: the seven escaped text cells and the timestamp. |
| `Admin.ExportIsEncoding` | src/pages/Admin.tsx:57-68 | The exported text is the CSV document of the header row followed by one row per filtered contact, in filter order, joined by `\n`. |
| `Admin.ExportRoundTrip` | src/pages/Admin.tsx:57-68 | Reading the exported text back gives the header, then each filtered contact's eight values in order. A missing company or phone reads back as an empty cell. |
| `Csv.EscapeCsv` | src/pages/Admin.tsx:235-239 | A value without `"`, `,` or `\n` is returned unchanged. A value with one is wrapped in double quotes: the output starts with `"` iff quoting is needed, and then ends with `"`. |
| `Csv.DoubleQuotesPlain` | src/pages/Admin.tsx:237 | Doubling quotes leaves a quote-free value unchanged. |
| `Csv.DoubleQuotesAppend` | src/pages/Admin.tsx:237 | Quote doubling works piece by piece: it distributes over concatenation. |
| `Csv.EscapeRoundTrip` | src/pages/Admin.tsx:235-239 | Decoding an escaped field in the RFC 4180 way (strip the outer quotes, read `""` as `"`) gives back the original value. |
| `Csv.ParseFieldRoundTrip` | src/pages/Admin.tsx:235-239 | The field reader consumes exactly one escaped field, up to the next comma, newline or end of text, and returns its original value. |
| `Csv.EscapeAllAppend` | src/pages/Admin.tsx:58-67 | Escaping a row cell by cell distributes over concatenating rows of cells. |
| `Csv.DocumentRoundTrip` | src/pages/Admin.tsx:68 | Lines joined with `,` and `\n` read back as the original rows of values. This holds when no row is a single empty cell, whose line would be empty. |
| `Csv.EscapeExample` | src/pages/Admin.tsx:235-239 | `He said, "hello"` escapes to `"He said, ""hello"""`. |
| `Csv.LoneCarriageReturnUnquoted` | src/pages/Admin.tsx:236 | A lone carriage return does not trigger quoting, unlike rule 6 of section 2 of RFC 4180. |
| `ContactForm.HandleChange` | src/pages/Contact.tsx:27-29 | The field named by the event takes the new value. The other five fields are unchanged. |
| `ContactForm.Optional` | src/pages/Contact.tsx:38-39 | `trim() \|\| undefined` is absent exactly for a blank value. Otherwise it is the trimmed value, which is non-empty. |
| `ContactForm.Payload` | src/pages/Contact.tsx:35-42 | Each required field is sent as the trimmed form value. It is empty exactly when blank, since the browser checks `required` before trimming and `handleSubmit` checks nothing. Company and phone are omitted exactly when blank, and otherwise sent as the trimmed form value. |
| `ContactForm.PayloadIsTrimmedForm` | src/pages/Contact.tsx:35-42 | Surrounding white space never matters: a form and the same form with every field trimmed send the same payload. |
| `ContactForm.PayloadIdempotent` | src/pages/Contact.tsx:35-42 | Building a payload from the form view of a payload gives the same payload. |
| `ContactForm.Submit` | src/pages/Contact.tsx:31-35 | A submit starts exactly when the button is enabled and the browser accepts the values. It sets loading, keeps the form and sends the payload. |
| `ContactForm.SubmitGate` | src/pages/Contact.tsx:123-145 | The browser lets a submit through exactly when no request is outstanding (`disabled={loading}`) and none of the four `required` fields (name, email, subject, message) is empty. Company and phone may be empty. |
| `ContactForm.BlankFormRefused` | src/pages/Contact.tsx:123-142 | The untouched form cannot be submitted, nor can it after filling in only one required field. |
| `ContactForm.WhitespacePassesRequired` | src/pages/Contact.tsx:35-42 | `required` rejects only the empty value: a required field holding only white space passes the browser and is sent as the empty string. |
| `ContactForm.Edit` | src/pages/Contact.tsx:27-29 | Typing sets the named field to the typed value. It keeps the other five fields and the loading flag. |
| `ContactForm.Settle` | src/pages/Contact.tsx:43-50 | Either outcome clears loading. Success resets all six fields to empty strings, and failure keeps the form exactly, so it can be submitted again exactly when the browser accepts it. |
| `ContactForm.FailureRetainsForm` | src/pages/Contact.tsx:45-50 | Submitting and failing returns to the same form, no longer loading, so the user can retry. |
| `ContactForm.SuccessResets` | src/pages/Contact.tsx:44-50 | Submitting and succeeding returns to the initial state, whatever was typed. |
| `ContactForm.NoDoubleSubmit` | src/pages/Contact.tsx:33 | While a request is outstanding the button is disabled: a second submit is refused. |
| `ContactForm.SubmissionStored` | src/pages/Contact.tsx:35-42 | The stored record holds the trimmed fields, the optional ones absent when blank, and status `new`. |
| `Slug.ToSlug` | src/pages/ServiceDetail.tsx:8-14 | The output holds only `a`-`z`, `0`-`9` and `-`. It never starts or ends with `-` and never contains `--`. |
| `Slug.SlugAlnums` | src/pages/ServiceDetail.tsx:10-13 | Deleting the dashes from the slug leaves exactly the letters and digits of the lower-cased, `&`-expanded input, in order. |
| `Slug.SlugFixpoint` | src/pages/ServiceDetail.tsx:8-14 | A string that already has slug shape is its own slug. |
| `Slug.SlugIdempotent` | src/pages/ServiceDetail.tsx:8-14 | Slugging twice is slugging once. |
| `Slug.SlugFixpointIff` | src/pages/IndustryDetail.tsx:8-14 | A string is its own slug if and only if it has slug shape. |
| `Slug.AmpersandBecomesAnd` | src/pages/ServiceDetail.tsx:11 | Every `&` becomes `and`, and the rest is expanded piece by piece. |
| `Slug.SlugTwoWords` | src/pages/ServiceDetail.tsx:12 | Two ASCII words separated by a space become the lower-cased words joined by one dash. |
| `Slug.SlugAmpersandHyphen` | src/pages/IndustryDetail.tsx:11-12 | Words joined by ` & ` and a non-breaking hyphen become dash-separated words, with `and` in the middle. |
| `DetailPages.BuildTable` | src/pages/ServiceDetail.tsx:157-159 | The table built by `forEach` assignment has exactly the keys of the list's entries. |
| `DetailPages.BuildTableLastWins` | src/pages/IndustryDetail.tsx:88 | Under a shared key the table holds the last entry with that key. |
| `DetailPages.BuildTableDistinct` | src/pages/IndustryDetail.tsx:87-89 | With distinct keys every entry is found under its own key, and the table has one key per entry. |
| `DetailPages.ServiceKeysDistinct` | src/pages/ServiceDetail.tsx:25-158 | The eight service titles give eight distinct slugs. |
| `DetailPages.IndustryKeysDistinct` | src/pages/IndustryDetail.tsx:25-88 | The eight industry names give eight distinct slugs. |
| `DetailPages.ServicesTableComplete` | src/pages/ServiceDetail.tsx:157-159 | The services table has eight keys. Each title's non-empty slug holds that title's service. |
| `DetailPages.IndustriesTableComplete` | src/pages/IndustryDetail.tsx:87-89 | The industries table has eight keys. Each name's non-empty slug holds that name's industry. |
| `DetailPages.IndexAsWritten` | src/pages/ServiceDetail.tsx:164 | JavaScript property access: an own key gives its entry, and an `Object.prototype` member gives an inherited value. Anything else is `undefined`. |
| `DetailPages.PageAsWritten` | src/pages/ServiceDetail.tsx:164-180 | A missing or empty slug shows "not found". The page breaks exactly for a slug that is not a key but names a prototype member. |
| `DetailPages.Lookup` | src/pages/IndustryDetail.tsx:94 | The intended lookup finds an entry exactly for a non-empty slug that is an own key of the table. |
| `DetailPages.ShowPage` | src/pages/IndustryDetail.tsx:94-110 | The page is never broken. It shows "not found" exactly when the lookup finds nothing, and otherwise that entry. |
| `DetailPages.PageAgreement` | src/pages/ServiceDetail.tsx:164-178 | The written and intended pages agree on every slug that is not a prototype member name. They differ on each such name that is not a key. |
| `DetailPages.ConstructorSlugBreaksPage` | src/pages/ServiceDetail.tsx:164 | `/services/constructor` and `/industries/constructor` render a broken page as written, and "not found" as intended. |
| `DetailPages.ServicePagesReachable` | src/pages/ServiceDetail.tsx:158-164 | Following the slug of any service title opens that service's page. |
| `DetailPages.IndustryPagesReachable` | src/pages/IndustryDetail.tsx:88-94 | Following the slug of any industry name opens that industry's page. |
| `DetailPages.FinancialServicesSlug` | src/pages/IndustryDetail.tsx:27 | `Financial Services` has the slug `financial-services`. |
| `DetailPages.RetailSlug` | src/pages/IndustryDetail.tsx:45 | `Retail & E‑commerce` has the slug `retail-and-e-commerce`, because the non-ASCII hyphen is a separator run. |

## Left out

- Authentication and role gating in the admin page and the schema. These depend on an authentication hook and tables that are not part of this model.
- The browser download: Blob, object URL, anchor click and file name. This is DOM I/O.
- Date formatting (`toISOString`, `toLocaleString`). It is the `iso` parameter, assumed never to produce `"`, `,` or `\n`. The `YYYY-MM-DDTHH:mm:ss.sssZ` text of `toISOString` never contains them. `Date.now()` is the `now` parameter.
- Convex transport, `useQuery`/`useMutation` reactivity and `useMemo` recomputation. The filter is a plain function of the list, the status filter and the query.
- Toast notifications and `console.error`, which are side effects only.
- The `caseStudies` table, which no code operates on.
- The navigation bar and the landing, about, services, industries and insights pages, which are presentation only.
- The static copy of each detail entry: a service's summary, outcomes and capabilities, and an industry's overview, priorities and solutions. Entries are modelled by their title or name, which is all the table build and lookup read.
- ContactForm.Submit: models the browser's `required` check (no empty value) but not the address syntax check of the `type="email"` input, so a non-empty malformed address counts as accepted.
- Text.ToLower: maps ASCII letters only, not the full Unicode case mapping of `toLowerCase`.
- Text.Trim: uses ECMAScript's white-space and line-terminator set, with the space separators fixed as of Unicode 15.
- Contacts.UpdateStatus: requires the id to be in the store. `db.patch` on an unknown id is library behaviour outside this model.
- Store.Insert: takes the clock value `now` as given, so creation times follow the insertion order only for a clock that moves forward. `Store.InsertChronological` and `Store.DescByCreationTime` state what such a clock gives.
- Strings are sequences of Unicode scalar values, not JavaScript's UTF-16 code units, so lone surrogates and `length` in code units are not modelled. No behaviour modelled here depends on the difference for well-formed text.
- Server-side validation beyond argument types does not exist in the code, so the model accepts empty strings too.
- Csv: only the reading direction needed for the round trips is modelled. The site itself never parses CSV.

## Findings

| source | as written | input that shows it | evidently intended | confidence | as-written member | corrected member |
|---|---|---|---|---|---|---|
| src/pages/ServiceDetail.tsx:164 | `servicesDetails[slug]` (and `industriesDetails[slug]` in src/pages/IndustryDetail.tsx:94) indexes a table built from `{}`. A slug naming an `Object.prototype` member finds an inherited function, which is truthy, so the "not found" branch is skipped. | route slug `constructor` | only own keys of the table are entries; any other slug shows "Service not found" / "Industry not found" | not executed | `DetailPages.PageAsWritten`, `DetailPages.ConstructorSlugBreaksPage` | `DetailPages.ShowPage` (with `DetailPages.Lookup`, `DetailPages.PageAgreement`) |
