# Redirected URL records, modelled in Dafny

A model of the redirect record of the SilverStripe `redirectedurls` module
(`RedirectedURL`). A record maps a "from" URL to a "to" URL. The "from" URL is
stored in two columns, `FromBase` and `FromQuerystring`. The table has a unique
index on that pair. The model covers three things:

- how a raw "from" URL is split at its first `?` and normalised on write
  (`setFrom`, `setFromBase`, `setFromQuerystring`);
- how the "to" URL is normalised (`setTo`) and the "from" URL rebuilt
  (`getFrom`);
- how `findByFrom` parses a lookup string and selects at most one record from
  the table.

Files:

- `php_strings.dfy`, module `PhpStrings`: PHP's `rtrim($s, c)` for a single
  character, `explode(c, $s, 2)` on a string holding `c`, and PHP truthiness
  of a string ("" and "0" are falsy).
- `redirected_url.dfy`, module `RedirectedURLs`: the pure normalisers
  (`WithLeadingSlash`, `NormalizeFromBase`, `NormalizeTo`, `FromParts`).
  It also holds the class `RedirectedURL` with the fields `fromBase`,
  `fromQuerystring` and `to`. `SetFromBase`, `SetFromQuerystring` and
  `SetTo` reassign a local value step by step, as the PHP does, and then
  write one field each. `SetFrom` splits its argument and calls
  `SetFromBase` and `SetFromQuerystring`, so it writes two fields.
  `GetFrom` is the read-only rebuild.
- `redirect_table.dfy`, module `RedirectTable`: the table as a map from the
  index columns `Key(fromBase, fromQuerystring)` to rows. Keying the map by
  those columns stands for the unique index, with an empty querystring
  counted as one value (see "## Left out"). The module also holds the lookup
  (`ParseLookup`, `LookupKey`, `FindByFrom`) and its properties.

Modelling decisions:

- A missing querystring is the empty string. `setFrom` hands PHP `null` to
  `setFromQuerystring` when there is no `?`, and `rtrim(null, '?')` is "".
  The SQL clause `"FromQuerystring" IS NULL` is modelled as matching rows
  whose querystring is "". This assumes the framework stores an empty
  querystring as NULL, which the file itself does not show.
- `$val[0]` on an empty string is "" in PHP (with a notice), and "" differs
  from "/". So `setFromBase("")` stores `/` and `findByFrom("")` looks up `/`.
  No error is raised anywhere.
- `Convert::raw2sql` is treated as the identity, and `DataObject::get_one` as
  an exact-match query over the map.

Behaviour of the code that the model keeps as it is:

- An empty from-string is accepted and stored as `/`. No error is raised.
- Base normalisation is not idempotent. `NormalizeFromBaseNotIdempotent`
  shows `"/a/?"` → `"/a/"` → `"/a"` and `"//"` → `""` → `"/"`.
  `NormalizeFromBaseIdempotent` proves the condition under which it does hold.
- The unique index (code/RedirectedURL.php:28-33) covers only
  (FromBase, FromQuerystring). It has no site scope, and neither has
  `findByFrom`.
- `"0"` is falsy in PHP, so a querystring of `"0"` counts as absent, both in
  `getFrom` and in `findByFrom`. `ZeroQuerystringDoesNotRoundTrip` and
  `FindByFromMissesZeroQuerystring` state the consequence.
- `setTo` strips in the opposite order to `setFromBase`: `?` first, then `/`.
  So `"/a?/"` becomes `"/a?"`, which still ends in `?`
  (`NormalizeToKeepsUncoveredQuestionMark`).

## Model

| member | source | states |
|---|---|---|
| PhpStrings.IsTruthy | code/RedirectedURL.php:134 | a string is truthy in PHP unless it is "" or "0" |
| PhpStrings.RTrim | code/RedirectedURL.php:146-148 | `rtrim` keeps a prefix of its input that does not end in the trimmed character, and everything it removes is that character |
| PhpStrings.RTrimUnique | code/RedirectedURL.php:146-148 | those three properties determine the result: any prefix that meets them is the one `rtrim` returns |
| PhpStrings.RTrimIdempotent | code/RedirectedURL.php:154 | trimming a second time changes nothing |
| PhpStrings.RTrimAbsorbsRun | code/RedirectedURL.php:179 | a trailing run of the trimmed character is removed whatever its length |
| PhpStrings.ExplodeFirst | code/RedirectedURL.php:121-122 | `explode('?', $val, 2)` returns text that, joined around one `?`, gives back the input, and whose first part holds no `?` |
| PhpStrings.ExplodeFirstUnique | code/RedirectedURL.php:121-122 | the split is at the first `?`: any split whose left part holds no `?` is the one returned |
| RedirectedURLs.WithLeadingSlash | code/RedirectedURL.php:142-144 | the result starts with `/`; it is the input exactly when the input already starts with `/`, and `/` + the input otherwise, the empty input included |
| RedirectedURLs.NormalizeFromBase | code/RedirectedURL.php:140-150 | the stored base is a prefix of the input with its leading slash, is empty or starts with `/`, and never ends in `?`; what is cut is a run of `?` followed by a run of `/`; a `/` stays at the end only when a `?` was cut after it; `/` (and so `""`) gives `/` |
| RedirectedURLs.NormalizeFromBaseQuestionMarkFree | code/RedirectedURL.php:140-150 | for a `?`-free input the stored base holds no `?` and is `/` or does not end in `/` |
| RedirectedURLs.NormalizeFromBaseEmpty | code/RedirectedURL.php:142-148 | the stored base is empty exactly when the input is two or more `/` and nothing else |
| RedirectedURLs.NormalizeFromBaseIdempotent | code/RedirectedURL.php:140-150 | for a `?`-free input that is not two or more slashes only, normalising the stored base again gives it back |
| RedirectedURLs.NormalizeFromBaseNotIdempotent | code/RedirectedURL.php:140-150 | without those conditions it fails: `"/a/?"` → `"/a/"` → `"/a"`, and `"//"` → `""` → `"/"` |
| RedirectedURLs.NormalizeTo | code/RedirectedURL.php:158-165 | the stored target is a prefix of the input with its trailing `?` run removed, and only `/` is cut from that; it is `/` exactly when the `?`-stripped input is `/`, and otherwise does not end in `/` |
| RedirectedURLs.NormalizeToKeepsUncoveredQuestionMark | code/RedirectedURL.php:160-163 | the two strips run once each, so `"/a?/"` is stored as `"/a?"`, still ending in `?` |
| RedirectedURLs.FromParts | code/RedirectedURL.php:119-129 | after `setFrom` the base holds no `?`, is empty or starts with `/`, is `/` or does not end in `/`; the querystring does not end in `?`; with no `?` in the input the base is the normalised input and the querystring is "" |
| RedirectedURLs.FromPartsSplitsAtFirstQuestionMark | code/RedirectedURL.php:121-128 | `setFrom(b ? a)` with `?`-free `b` stores the normalised `b` and `a` with its trailing `?` removed |
| RedirectedURLs.RedirectedURL.SetFrom | code/RedirectedURL.php:119-129 | writes exactly FromBase and FromQuerystring, with the pair `FromParts` gives |
| RedirectedURLs.RedirectedURL.SetFromBase | code/RedirectedURL.php:140-150 | writes only FromBase, with the normalised base |
| RedirectedURLs.RedirectedURL.SetFromQuerystring | code/RedirectedURL.php:152-155 | writes only FromQuerystring, with the value stripped of trailing `?` |
| RedirectedURLs.RedirectedURL.SetTo | code/RedirectedURL.php:158-165 | writes only To, with the normalised target |
| RedirectedURLs.RedirectedURL.GetFrom | code/RedirectedURL.php:131-138 | the rebuilt URL starts with the base; it is the base alone exactly when the querystring is falsy ("" or "0"), and otherwise the base, `?` and the querystring |
| RedirectedURLs.StoredBaseIsFixed | code/RedirectedURL.php:140-150 | a non-empty base written by `setFrom` is a fixed point of the base normaliser |
| RedirectedURLs.SetFromGetFromRoundTrip | code/RedirectedURL.php:119-138 | for a record written by `setFrom` with a non-empty base and a querystring other than "0", `setFrom(getFrom())` stores the same two columns |
| RedirectedURLs.ZeroQuerystringDoesNotRoundTrip | code/RedirectedURL.php:131-138 | a querystring of "0" is dropped by `getFrom`, so `setFrom(getFrom())` stores "" instead |
| RedirectTable.WellKeyed | code/RedirectedURL.php:28-33 | the table invariant for the unique index: every row is filed under its own (FromBase, FromQuerystring) |
| RedirectTable.Matches | code/RedirectedURL.php:192-198 | the WHERE clause: FromBase equals the parsed base, and FromQuerystring equals the parsed querystring when that is truthy, or is NULL when it is not |
| RedirectTable.ParseLookup | code/RedirectedURL.php:176-187 | the parsed base starts with `/` and holds no `?`; the parsed querystring does not end in `?` |
| RedirectTable.LookupKey | code/RedirectedURL.php:189-196 | a row satisfies the WHERE clause exactly when its index columns are this key |
| RedirectTable.FindByFrom | code/RedirectedURL.php:174-199 | the returned row is in the table; on a well-keyed table it satisfies the WHERE clause, and every row satisfying the WHERE clause is the returned row: exact match, no prefix match, no querystring fallback |
| RedirectTable.UniqueIndex | code/RedirectedURL.php:28-33 | two rows with the same (FromBase, FromQuerystring) are the same row |
| RedirectTable.ParseLookupLeadingSlash | code/RedirectedURL.php:176-178 | `"x"` and `"/x"` parse to the same base and querystring |
| RedirectTable.ParseLookupIgnoresTrailingQuestionMarks | code/RedirectedURL.php:179 | appending a run of `?` to a lookup string does not change what is looked up |
| RedirectTable.ParseLookupKeepsTrailingSlash | code/RedirectedURL.php:176-187 | a `?`-free lookup string is looked up as itself with its leading slash, trailing `/` kept, with no querystring |
| RedirectTable.FindByFromMissesTrailingSlash | code/RedirectedURL.php:174-199 | in a table of bases written by `setFrom`, a lookup of a `?`-free path ending in `/` (not the root) finds nothing |
| RedirectTable.ParseLookupExamples | code/RedirectedURL.php:176-187 | `"/about/"` is looked up as `"/about/"` but written as `"/about"`; `"/a?"` looks up (`/a`, NULL) |
| RedirectTable.FindByFromQuerystringDiscrimination | code/RedirectedURL.php:192-198 | a returned row has a truthy querystring exactly when the lookup has one; a lookup with none returns only a row whose querystring is NULL |
| RedirectTable.FindByFromAboutUsExample | code/RedirectedURL.php:192-198 | a record with no querystring is found by its bare path and not by the path with `?x=1` |
| RedirectTable.ParseLookupBaseAndQuerystring | code/RedirectedURL.php:176-187 | a `/`-led, `?`-free base followed by `?` and a non-empty querystring not ending in `?` parses back into exactly that base and querystring |
| RedirectTable.FindByFromGetFrom | code/RedirectedURL.php:131-199 | a stored record written by `setFrom`, with a non-empty base and a querystring other than "0", is found by its own `getFrom` |
| RedirectTable.FindByFromMissesZeroQuerystring | code/RedirectedURL.php:192-196 | a record whose querystring is "0" is not found by its own `getFrom`; the lookup asks for a NULL querystring |

## Left out

- `getCMSFields` (code/RedirectedURL.php:49-91): admin form fields, locale and subsite dropdowns. This is framework UI with no logic of its own.
- `getRegion` and `getSubsiteTitle` (code/RedirectedURL.php:102-117): display names from `Locale::getDisplayRegion` and the `_t` translation helper, which are foreign calls.
- `providePermissions`, `canView`, `canCreate`, `canEdit` and `canDelete` (code/RedirectedURL.php:201-237): permission wiring via `Permission::check`, a framework call.
- The `Locale` column and the `Subsite` relation: the core neither normalises nor looks up by them, so they are not fields of the model.
- Writing, updating and deleting rows: the framework does this, not the file. The table is an abstract map, and nothing in the model inserts into it.
- `Convert::raw2sql`: SQL escaping is treated as the identity.
- `DataObject::get_one`: the query is modelled as exact equality over the map.
- The map also assumes at most one row per base with a NULL querystring. A SQL unique index treats NULLs as distinct, so the database can hold two rows (`/a`, NULL), and `get_one` would then return either of them. The model keeps one such row per base.
- How the framework stores "" versus NULL: not visible in the file. The empty querystring stands for NULL.
- `Varchar(255)` column width: truncation by the database is not modelled.
- PHP strings are byte strings. The model uses Dafny strings; only the ASCII characters `/` and `?` matter to the logic.
- The PHP notice raised by `$val[0]` on an empty string: logging, not modelled. Its value "" is modelled.
