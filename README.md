# ApplyDay core rules in Dafny

ApplyDay is a job-application tracker. It has a Django backend, which
stores applications and job descriptions and normalises job descriptions
extracted by a language model, and a React frontend, which lists, searches,
filters and sorts them. This project models the parts of both sides that
are rules, not rendering, plumbing or calls into libraries:

- **Application list processor** (`ApplicationUtils`): the client-side
  pieces below, each applied to a list of application records.
  - Free-text search.
  - The status, location-type and role-type keyword filters.
  - A stable multi-key sort with a status-priority table.
  - The `processApplications` pipeline that chains them.
  - The filter options offered to the user.
- **Filter controls** (`ApplicationControls`): the selection toggles, the active-filter badge,
  the `sortBy:sortOrder` select value and the display labels.
- **Job-description normalisers** (`JdSchema`): `to_lower_snake`,
  `dedupe_sorted` (a loop, modelled as a method), the first-match-wins role
  classifier, `to_bool_or_none`, and the field validators for text,
  industry, location, level, role and arrays (the array validator is a loop,
  modelled as a method).
- **Job-description page** (`JdPage`): the search, level and company filters,
  the company choices, and the page state as a class whose handlers prepend,
  replace by id and remove by id once the server has answered.
- **Analysis post-processing** (`ChainInsights`): language normalisation, the
  resume default and the stripping of a markdown code fence around the
  model's reply.
- **Backend request rules** (`ApplicationViews`, `ExtractViews`): the query
  parameter filters over the base order, the status statistics, the PATCH
  field whitelist and the start/end validation order of `process_extract`.

Shared modules: `Wrappers` (Option, Result), `Text` (ASCII string helpers:
case, strip, split/join, substring, ordering), `Seqs` (filter, subsequence,
distinct, a stable insertion sort over numeric and text keys), `Values` (a
Python value of dynamic type, with its truthiness) and `Records` (the
application record and its five statuses).

Records keep the fields the rules read. Text fields that the client may
receive as missing are `Option<string>`. Dates are integer timestamps:
`applicationDate` is optional and `createdAt` is always set. Server calls,
the language-model chain and ISO-8601 parsing are parameters: a `Reply`
value, a function from chain input to reply, and a predicate on strings.

## Model

| member | source | states |
|---|---|---|
| Records.StatusName | backend/applyday/application/models.py:12-18 | each of the five statuses has a non-empty lower-case stored name |
| Records.StatusNameInjective | backend/applyday/application/models.py:12-18 | distinct statuses have distinct stored names |
| ApplicationUtils.LowerOr | frontend/applyday/src/utils/applicationUtils.js:17-20 | a missing field reads as "" and the result has no upper-case letter |
| ApplicationUtils.SearchApplications | frontend/applyday/src/utils/applicationUtils.js:9-30 | an absent, empty or whitespace-only term returns the input; otherwise each record is kept, as often as in the input and in input order, iff the trimmed lower-cased term occurs in its lower-cased company, title, status or notes |
| ApplicationUtils.SearchTermCaseInsensitive | frontend/applyday/src/utils/applicationUtils.js:14 | a term and its lower-cased form give the same result |
| ApplicationUtils.SearchFindsCompany | frontend/applyday/src/utils/applicationUtils.js:16-28 | every record whose company contains the normalised term is in the result |
| ApplicationUtils.FilterByStatus | frontend/applyday/src/utils/applicationUtils.js:38-44 | identity on an absent or empty selection; otherwise exactly the records whose stored status name is selected, in input order |
| ApplicationUtils.FilterByLocationType | frontend/applyday/src/utils/applicationUtils.js:52-70 | identity on an empty selection; otherwise a record is kept iff hybrid is selected, or remote is selected and it mentions remote, or onsite is selected and it does not |
| ApplicationUtils.HybridKeepsAll | frontend/applyday/src/utils/applicationUtils.js:66 | with hybrid selected the location filter returns its input |
| ApplicationUtils.FilterByRoleType | frontend/applyday/src/utils/applicationUtils.js:78-101 | identity on an empty selection; otherwise a record is kept iff it has a selected role category (intern keyword, part-time keyword, or full-time keyword or neither of the other two) |
| ApplicationUtils.RoleCategoriesCover | frontend/applyday/src/utils/applicationUtils.js:88-93 | every record is in at least one role category |
| ApplicationUtils.InternalCountsAsInternship | frontend/applyday/src/utils/applicationUtils.js:88 | the intern keyword is a substring test, so "Internal Tools Engineer" counts as an internship |
| ApplicationUtils.FieldOf | frontend/applyday/src/utils/applicationUtils.js:114-143 | company, status and title select their own key; every other value selects the date |
| ApplicationUtils.StatusPriority | frontend/applyday/src/utils/applicationUtils.js:124-133 | priorities are at most 5, and 0 exactly for a missing status |
| ApplicationUtils.StatusPriorityInjective | frontend/applyday/src/utils/applicationUtils.js:125-131 | distinct statuses have distinct priorities |
| ApplicationUtils.SortApplications | frontend/applyday/src/utils/applicationUtils.js:110-151 | a permutation of the input, ordered by the chosen key (ascending only for "asc"), with records of equal key in input order |
| ApplicationUtils.UnknownSortIsDate | frontend/applyday/src/utils/applicationUtils.js:139-142 | an unknown sort criterion sorts exactly as "date" |
| ApplicationUtils.StatusSortOfferedFirst | frontend/applyday/src/utils/applicationUtils.js:123-147 | sorting by status in the default order puts every offered record before all others |
| ApplicationUtils.SortIdempotent | frontend/applyday/src/utils/applicationUtils.js:110-151 | sorting a sorted list again changes nothing |
| ApplicationUtils.FilterStages | frontend/applyday/src/utils/applicationUtils.js:168-186 | the four filter stages keep exactly the records every filter keeps, with multiplicity and in input order |
| ApplicationUtils.ProcessApplications | frontend/applyday/src/utils/applicationUtils.js:165-194 | the result holds exactly the records all four filters keep, with multiplicity; when sortBy is truthy it is the stable sort of the filtered list, otherwise the filtered list itself, a subsequence of the input |
| ApplicationUtils.ProcessNoFilters | frontend/applyday/src/utils/applicationUtils.js:165-194 | with no filter and no sort the pipeline returns its input |
| ApplicationUtils.ProcessSearchOnly | frontend/applyday/src/utils/applicationUtils.js:169-171 | a search term alone gives exactly the search result |
| ApplicationUtils.ProcessIdempotent | frontend/applyday/src/utils/applicationUtils.js:165-194 | processing a processed list again with the same filters changes nothing |
| ApplicationUtils.PresentStatuses | frontend/applyday/src/utils/applicationUtils.js:202 | the status names present among the records, and no others |
| ApplicationUtils.GetFilterOptions | frontend/applyday/src/utils/applicationUtils.js:201-215 | statuses are the distinct present status names in strictly ascending order; the location, role and sort choices are the fixed lists |
| ApplicationUtils.SortOptionsSelectDistinctFields | frontend/applyday/src/utils/applicationUtils.js:208-213 | the four offered sort options select four different sort keys |
| ApplicationUtils.OfferedChoicesAreTested | frontend/applyday/src/utils/applicationUtils.js:206-207 | each offered location and role choice alone keeps exactly the records its keyword test accepts |
| ApplicationControls.Toggle | frontend/applyday/src/components/ApplicationControls.jsx:31-36 | a selected value is removed everywhere and the rest keep their order and counts; an unselected value is appended |
| ApplicationControls.ToggleTwice | frontend/applyday/src/components/ApplicationControls.jsx:32-34 | toggling an unselected value twice restores the list |
| ApplicationControls.ToggleTwiceSelected | frontend/applyday/src/components/ApplicationControls.jsx:32-34 | toggling a selected value twice moves it to the end |
| ApplicationControls.ToggleKeepsDistinct | frontend/applyday/src/components/ApplicationControls.jsx:31-50 | a selection without duplicates stays without duplicates and changes length by exactly one |
| ApplicationControls.ActiveFilterCount | frontend/applyday/src/components/ApplicationControls.jsx:52-54 | the badge is the sum of the three selection lengths, and 0 iff nothing is selected |
| ApplicationControls.ToggleStatusCount | frontend/applyday/src/components/ApplicationControls.jsx:31-54 | toggling one status moves the badge up or down by one |
| ApplicationControls.DecodeSortValue | frontend/applyday/src/components/ApplicationControls.jsx:26-29 | neither half holds a colon, and the order is missing iff the value has no colon |
| ApplicationControls.EncodeSortValue | frontend/applyday/src/components/ApplicationControls.jsx:127 | the select's value `${sortBy}:${sortOrder}`, which `split(':')` at jsx:26-29 decodes back to the same choice when neither half holds a colon |
| ApplicationControls.SortValueWithoutOrder | frontend/applyday/src/components/ApplicationControls.jsx:27 | a value without a colon is the field, with no order |
| ApplicationControls.SortValueEncodesDecoded | frontend/applyday/src/components/ApplicationControls.jsx:127 | a value with exactly one colon is the encoding of its decoding |
| ApplicationControls.OfferedSortValues | frontend/applyday/src/components/ApplicationControls.jsx:132-139 | two values per sort option, its desc value then its asc value |
| ApplicationControls.OfferedSortValuesDecode | frontend/applyday/src/components/ApplicationControls.jsx:132-139 | every offered value decodes to its option's field with desc or asc |
| ApplicationControls.DefaultSortIsOffered | frontend/applyday/src/components/ApplicationControls.jsx:8-9 | the default date:desc is one of the offered values |
| ApplicationControls.FormatStatusDisplay | frontend/applyday/src/components/ApplicationControls.jsx:56-58 | same length; the first character upper-cased, the rest unchanged |
| ApplicationControls.StatusDisplayCapitalised | frontend/applyday/src/components/ApplicationControls.jsx:182-192 | every stored status is shown with a capital initial |
| ApplicationControls.DisplayOr | frontend/applyday/src/components/ApplicationControls.jsx:66 | a key with a non-empty label shows the label; an unknown key shows itself |
| ApplicationControls.FormatLocationDisplay | frontend/applyday/src/components/ApplicationControls.jsx:60-67 | the three location keys get Remote, Hybrid and On-site; any other key is shown unchanged |
| ApplicationControls.FormatRoleDisplay | frontend/applyday/src/components/ApplicationControls.jsx:69-76 | the three role keys get Full-time, Part-time and Internship; any other key is shown unchanged |
| ApplicationControls.OfferedChoicesLabelled | frontend/applyday/src/components/ApplicationControls.jsx:205-238 | every offered location and role choice is a key of its display map and is shown with that key's label |
| JdSchema.ToLowerSnakeShape | backend/applyday/ai/schema/jd_schema.py:42-48 | whatever the input, the result has no upper-case letter, whitespace, '-' or '/', no "__", and no '_' at either end |
| JdSchema.ToLowerSnakeFixpoint | backend/applyday/ai/schema/jd_schema.py:42-48 | a lower_snake_case string is left unchanged |
| JdSchema.ToLowerSnakeIdempotent | backend/applyday/ai/schema/jd_schema.py:42-48 | applying to_lower_snake twice equals applying it once |
| JdSchema.MapLowerSnake | backend/applyday/ai/schema/jd_schema.py:53-54 | the key of every item, position by position |
| JdSchema.DedupedKeysSpec | backend/applyday/ai/schema/jd_schema.py:50-56 | the deduplicated keys are strictly increasing, lower_snake_case, and exactly the keys of the items |
| JdSchema.DedupeSorted | backend/applyday/ai/schema/jd_schema.py:50-56 | the loop over the seen keys returns the distinct keys sorted: strictly increasing, clean, every key of an item and nothing else |
| JdSchema.FirstMatchSpec | backend/applyday/ai/schema/jd_schema.py:13-38 | a rule table gives no role iff no rule hits, and otherwise the role of the earliest rule that hits |
| JdSchema.FuzzyRoleMapperIsFirstMatch | backend/applyday/ai/schema/jd_schema.py:13-38 | the if-chain equals the first match over the rule table in source order, falling back to to_lower_snake |
| JdSchema.FuzzyRoleMapperFirstHitWins | backend/applyday/ai/schema/jd_schema.py:15-37 | the earliest rule whose keyword occurs in the lower-cased text decides the role |
| JdSchema.FuzzyRoleMapperFallback | backend/applyday/ai/schema/jd_schema.py:38 | with no keyword hit the result is to_lower_snake of the text |
| JdSchema.RuleRolesSnake | backend/applyday/ai/schema/jd_schema.py:16-37 | every role in the table is a lower_snake_case key |
| JdSchema.FuzzyRoleMapper | backend/applyday/ai/schema/jd_schema.py:13-38 | the result of the keyword chain is always lower_snake_case |
| JdSchema.FuzzyRoleMapperShape | backend/applyday/ai/schema/jd_schema.py:13-38 | the result is the role of a rule that hits, or else the normalised text |
| JdSchema.ToBoolOrNone | backend/applyday/ai/schema/jd_schema.py:58-72 | None, "" and "null" give None; a bool is itself; an int is true unless 0; a string is true or false iff its stripped lower-cased form is a true or false word; anything else gives None |
| JdSchema.ToBoolOrNoneNormalised | backend/applyday/ai/schema/jd_schema.py:66-67 | a string gives the same answer as its stripped lower-cased form |
| JdSchema.ToBoolOrNoneRoundTrip | backend/applyday/ai/schema/jd_schema.py:62-71 | a bool and Python's "True"/"False" spelling of it both read back as that bool |
| JdSchema.StripText | backend/applyday/ai/schema/jd_schema.py:125-139 | non-strings pass through; a blank string becomes None and any other string becomes Str of its stripped form, which is non-empty and stripped |
| JdSchema.StripTextIdempotent | backend/applyday/ai/schema/jd_schema.py:132-139 | the text validator is idempotent |
| JdSchema.NormIndustry | backend/applyday/ai/schema/jd_schema.py:141-150 | non-strings pass through; a string becomes its to_lower_snake key, or None when that key is empty; a key returned is non-empty lower_snake_case |
| JdSchema.NormIndustryIdempotent | backend/applyday/ai/schema/jd_schema.py:143-150 | the industry validator is idempotent |
| JdSchema.LevelTargetsFinal | backend/applyday/ai/schema/jd_schema.py:81-87 | every level the map substitutes in is an accepted level and is not substituted again |
| JdSchema.NormLevel | backend/applyday/ai/schema/jd_schema.py:168-177 | non-strings pass through; a string comes back lower-case and never a key of the level map, and a mapped key becomes an accepted level |
| JdSchema.NormLevelSubstitutes | backend/applyday/ai/schema/jd_schema.py:174-176 | a mapped level becomes its target; any other level is its stripped lower-cased form |
| JdSchema.NormLevelIdempotent | backend/applyday/ai/schema/jd_schema.py:170-177 | the level validator is idempotent |
| JdSchema.CleanParts | backend/applyday/ai/schema/jd_schema.py:163 | the parts each stripped, with the empty results dropped, in order and with repeats kept; every piece is non-empty and stripped |
| JdSchema.CleanPartsMembers | backend/applyday/ai/schema/jd_schema.py:163 | the pieces are exactly the stripped parts that are not empty |
| JdSchema.CleanPartsNoComma | backend/applyday/ai/schema/jd_schema.py:163 | parts without a comma give pieces without a comma |
| JdSchema.NormLocation | backend/applyday/ai/schema/jd_schema.py:152-166 | non-strings pass through; text without a comma is the stripped, space-collapsed, title-cased text; text with a comma is the ", "-join of the stripped non-empty comma pieces of that text, in order; each piece is non-empty, stripped and comma-free; every string result is single-spaced (its only whitespace is isolated plain spaces) and has no whitespace at either end |
| JdSchema.LocationTextClean | backend/applyday/ai/schema/jd_schema.py:159-161 | after strip, `re.sub(r"\s+", " ", v)` and `title()`, the text is single-spaced and has no whitespace at either end |
| JdSchema.JoinPiecesClean | backend/applyday/ai/schema/jd_schema.py:163-164 | joining non-empty, stripped, single-spaced pieces with ", " keeps the text single-spaced and stripped |
| JdSchema.NormLocationPieces | backend/applyday/ai/schema/jd_schema.py:162-164 | the joined pieces are exactly the stripped non-empty comma pieces of the cleaned text |
| JdSchema.NormalizeRole | backend/applyday/ai/schema/jd_schema.py:179-185 | None stays None, a string becomes `fuzzy_role_mapper` of it (a lower_snake_case role), anything else is rejected |
| JdSchema.CollectKeys | backend/applyday/ai/schema/jd_schema.py:225-230 | the loop leaves in `out` exactly `NormItems` of the entries: the non-empty key of every string entry, in order |
| JdSchema.NormItemsMembers | backend/applyday/ai/schema/jd_schema.py:226-230 | the collected keys are those of the entries and nothing else |
| JdSchema.NormItemsShape | backend/applyday/ai/schema/jd_schema.py:226-230 | every collected key is non-empty and lower_snake_case |
| JdSchema.NormalizedKeys | backend/applyday/ai/schema/jd_schema.py:219-231 | the deduplicated keys of the entries are strictly increasing, non-empty, lower_snake_case and exactly the entries' keys |
| JdSchema.NormalizeArray | backend/applyday/ai/schema/jd_schema.py:217-231 | None, a string or a list is accepted and anything else rejected; the result is strictly increasing, free of empty keys, lower_snake_case, and exactly the keys of the string entries |
| JdPage.FilteredJDs | frontend/applyday/src/components/JDpage.jsx:97-107 | the order-preserving subsequence of the records that pass the search, level and company controls, with multiplicity |
| JdPage.FilteredJDsCleared | frontend/applyday/src/components/JDpage.jsx:98-104 | with all three controls cleared the whole list is shown |
| JdPage.SearchIgnoresTermCase | frontend/applyday/src/components/JDpage.jsx:99-101 | a term and its lower-cased form select the same records |
| JdPage.SpaceIsSearched | frontend/applyday/src/components/JDpage.jsx:98 | the term is not trimmed: a lone space does not match a record without a space |
| JdPage.CompanyNames | frontend/applyday/src/components/JDpage.jsx:110 | exactly the present non-empty company values |
| JdPage.UniqueCompanies | frontend/applyday/src/components/JDpage.jsx:110 | each present non-empty company once, in order of first appearance |
| JdPage.ChosenCompanyShowsSome | frontend/applyday/src/components/JDpage.jsx:104-110 | every offered company, chosen alone, shows at least one record |
| JdPage.ReplaceById | frontend/applyday/src/components/JDpage.jsx:73 | same length; every record with the id is replaced by the returned one, the others stay in place |
| JdPage.ReplaceByIdAbsent | frontend/applyday/src/components/JDpage.jsx:73 | replacing an id nobody has changes nothing |
| JdPage.ReplaceByIdResult | frontend/applyday/src/components/JDpage.jsx:73 | after the update every record with the id is the returned one and the others are unchanged |
| JdPage.WithField | frontend/applyday/src/components/JDpage.jsx:219-253 | the edited input holds the typed value and every other field is kept |
| JdPage.RemoveById | frontend/applyday/src/components/JDpage.jsx:88 | a subsequence holding exactly the records with another id, each as often as before |
| JdPage.RemoveByIdAbsent | frontend/applyday/src/components/JDpage.jsx:88 | removing an id nobody has changes nothing |
| JdPage.RemoveAfterReplace | frontend/applyday/src/components/JDpage.jsx:73-88 | removing an id after replacing it is the same as removing it |
| JdPage.JDPageState.constructor | frontend/applyday/src/components/JDpage.jsx:8-23 | the empty list, no error, the empty form, the form hidden and the controls cleared |
| JdPage.JDPageState.LoadJDs | frontend/applyday/src/components/JDpage.jsx:30-42 | the error is cleared; the fetched list replaces the old one, or the old list stays and the load error is shown |
| JdPage.JDPageState.HandleCreateJD | frontend/applyday/src/components/JDpage.jsx:44-68 | the server is asked iff company and role are filled in; a refused form sets the required-fields error; success prepends the record, empties and hides the form and clears the error; failure keeps the list and sets the create error |
| JdPage.JDPageState.HandleUpdateJD | frontend/applyday/src/components/JDpage.jsx:70-79 | success replaces by id and clears the error; failure keeps the list and sets the update error |
| JdPage.JDPageState.HandleDeleteJD | frontend/applyday/src/components/JDpage.jsx:81-94 | a declined confirmation changes nothing; success removes by id and clears the error; failure keeps the list and sets the delete error |
| JdPage.JDPageState.ToggleCreateForm | frontend/applyday/src/components/JDpage.jsx:186 | the form flag flips and nothing else changes |
| JdPage.JDPageState.EditForm | frontend/applyday/src/components/JDpage.jsx:219-253 | one form input takes the typed value and nothing else changes |
| JdPage.JDPageState.SetShowCreateForm | frontend/applyday/src/components/JDpage.jsx:267 | the form flag is set and nothing else changes |
| JdPage.JDPageState.SetControls | frontend/applyday/src/components/JDpage.jsx:152-174 | the search, level and company controls take the new values and nothing else changes |
| JdPage.CreatedIsShown | frontend/applyday/src/components/JDpage.jsx:52-107 | a created record is on screen when the controls are cleared |
| JdPage.DeletedIsHidden | frontend/applyday/src/components/JDpage.jsx:88-107 | no record with a deleted id is on screen, whatever the controls |
| ChainInsights.Digits | backend/applyday/ai/chain/chain_insights.py:103 | the decimal text of a natural number is a non-empty digit string |
| ChainInsights.IntText | backend/applyday/ai/chain/chain_insights.py:103 | the text of an int starts with a digit or a minus sign |
| ChainInsights.NormalizeLanguage | backend/applyday/ai/chain/chain_insights.py:94-105 | the language is always English or Chinese, and Chinese iff the lower-cased key is zh or chinese |
| ChainInsights.FalsyLanguageIsEnglish | backend/applyday/ai/chain/chain_insights.py:101 | any falsy argument selects English |
| ChainInsights.LanguageIgnoresCase | backend/applyday/ai/chain/chain_insights.py:105 | strings equal up to case select the same language |
| ChainInsights.KnownLanguages | backend/applyday/ai/chain/chain_insights.py:94-99 | en and english in any case give English; zh and chinese give Chinese |
| ChainInsights.NumberLanguageIsEnglish | backend/applyday/ai/chain/chain_insights.py:102-105 | a bool or an int never names a language, so it selects English |
| ChainInsights.AnalysisInput | backend/applyday/ai/chain/chain_insights.py:107-111 | the chain receives the data unchanged, the resume or "" when it is missing, and the normalised language of the argument (English or Chinese) |
| ChainInsights.StripFence | backend/applyday/ai/chain/chain_insights.py:121-124 | a markdown fence, else a bare fence, is cut off with Python slice semantics (empty when the fences overlap); anything else is returned unchanged |
| ChainInsights.OpeningsExclusive | backend/applyday/ai/chain/chain_insights.py:121-123 | the two opening fences can never both match, so at most one branch strips |
| ChainInsights.StripMarkdownFence | backend/applyday/ai/chain/chain_insights.py:121-122 | a markdown-fenced body comes back exactly |
| ChainInsights.StripBareFence | backend/applyday/ai/chain/chain_insights.py:123-124 | a bare-fenced body comes back exactly; only one layer is removed |
| ChainInsights.OverlappingFences | backend/applyday/ai/chain/chain_insights.py:121-124 | when the fences overlap the crossed slice bounds leave "" |
| ChainInsights.StripFenceWithin | backend/applyday/ai/chain/chain_insights.py:120-124 | the cleaned content is a contiguous piece of the original content |
| ChainInsights.RunAnalysis | backend/applyday/ai/chain/chain_insights.py:91-126 | the returned report is a contiguous piece of the reply's text: the chain is invoked once and nothing is added to its answer |
| ChainInsights.RunAnalysisUnwraps | backend/applyday/ai/chain/chain_insights.py:91-126 | a report the chain wraps in a markdown fence is returned unwrapped |
| ChainInsights.RunAnalysisPlain | backend/applyday/ai/chain/chain_insights.py:114-126 | a reply without a closing fence is returned as its text, from `content` or else `str()` |
| ApplicationViews.BaseOrder | backend/applyday/application/views.py:20 | a permutation of the stored records, newest created_at first |
| ApplicationViews.GetQueryset | backend/applyday/application/views.py:33-45 | a subsequence of the base order, still newest first, holding exactly the records that meet every given parameter (title and company contain it ignoring case, status equals it lower-cased) |
| ApplicationViews.QueryWithoutParameters | backend/applyday/application/views.py:39-44 | absent or empty parameters give the base order itself |
| ApplicationViews.QueryTitleMatch | backend/applyday/application/views.py:39-40 | every record kept by a title query contains the title, ignoring case, and is a stored record |
| ApplicationViews.QueryKeepsMatches | backend/applyday/application/views.py:33-45 | every stored record that meets all given parameters is returned |
| ApplicationViews.CountStatus | backend/applyday/application/views.py:56-59 | a status count is at most the number of records |
| ApplicationViews.StatusCountsPartition | backend/applyday/application/views.py:54-60 | the five status counts and the records without status add up to the total |
| ApplicationViews.GetStats | backend/applyday/application/views.py:54-61 | total is the record count, each of the four reported counts is its exact status count, and their sum plus the prepared count is at most the total |
| ApplicationViews.StatsOfAdded | backend/applyday/application/views.py:54-61 | a new record raises the total and exactly its own status count by one |
| ApplicationViews.PartialUpdate | backend/applyday/application/views.py:84-90 | rejected with the invalid-fields error iff some key is not "text"; otherwise the forwarded data has only allowed keys, each with its value from the body |
| ApplicationViews.ForwardedIsBody | backend/applyday/application/views.py:86-90 | once the check passes, the comprehension keeps the whole body |
| ApplicationViews.EmptyPatchPasses | backend/applyday/application/views.py:86-87 | the empty body passes and forwards nothing |
| ExtractViews.PatchRejectsOtherFields | backend/applyday/extract/views.py:23-27 | a body with any key but "text" gets the invalid-fields error |
| ExtractViews.PatchForwardsText | backend/applyday/extract/views.py:25-29 | a body holding only "text" is forwarded unchanged |
| ExtractViews.ProcessExtract | backend/applyday/extract/views.py:37-54 | the required error iff start or end is falsy; completion iff both are strings that parse, with the original strings; the format error only when one present string does not parse; `Uncaught` iff both are truthy and start is not a string, or start parses and end is not a string |
| ExtractViews.MissingBeforeFormat | backend/applyday/extract/views.py:42-51 | a missing end wins over a malformed start |
| ExtractViews.ValidWindowCompletes | backend/applyday/extract/views.py:46-54 | two strings that parse start the extraction with those strings and report completion |
| ExtractViews.MalformedIsFormatError | backend/applyday/extract/views.py:46-51 | with both present, a string that does not parse gives the format error |

Both `JobExtract.partial_update` copies, in `application/views.py` and
`extract/views.py`, apply the same rule. The rule is defined once, as
`ApplicationViews.PartialUpdate`. The `ExtractViews` lemmas state it for the
extract copy.

## Left out

- Unicode: case mapping, `strip`, `\s`, `title()` and substring tests are ASCII only. Whitespace is space, tab, line feed, vertical tab, form feed and carriage return. Python and JavaScript also fold non-ASCII letters and trim non-ASCII whitespace. Python's `str.strip()` and `re`'s `\s` also treat the ASCII separators `\x1c`-`\x1f` as whitespace, so `to_lower_snake("a\x1cb")` is "a_b" in Python and "a\x1cb" in the model. JavaScript's `trim` does not treat them as whitespace. String order (`Text.StrLt`) compares code points; JavaScript's `<` in `sortApplications` compares UTF-16 code units, so the two orders differ between characters above U+FFFF and characters in U+E000-U+FFFF.
- `_to_float_or_none` and `_to_int_or_none` are not modelled, because they are float and integer parsing. A float is an `Other` value, which keeps only its truthiness.
- Pydantic: the `Literal` checks on level, employment type and the other enumerated fields are not modelled. Nor is the order in which Pydantic chains several before-validators on one field. Each validator is modelled alone.
- `_normalize_array` over dicts, tuples and other iterables: every value that is not None, a string or a list is modelled as rejected.
- Django: querysets, icontains collation and tie order are not modelled. The model's base order is a stable sort by `createdAt`, so ties keep the input order.
- Django serializers, `get_object`, `perform_update` and the saving of a forwarded patch are not modelled.
- `ApplicationViews.GetStats` counts a list of records. The `Application.objects` count queries themselves are not modelled.
- `datetime.fromisoformat` is modelled as the predicate parameter `isIso`. The `process_extract` service call is modelled as the `Completed` reply that carries its arguments.
- JdSchema.ToBoolOrNone: a float is an `Other`, and `ToBoolOrNone` gives None for it where Python gives `bool(v)` (so 0.5 gives True there), because `Other` also stands for dicts and other objects, which give None.
- `Values.Value` keeps of a dict, a float or any other object only its Python truthiness (`Other(truthy)`), so `{}` and `0.0` are falsy and count as missing in `process_extract`.
- `ExtractViews.ProcessExtract` models a truthy non-string start or end as `Uncaught`. This stands for the `TypeError` that `fromisoformat` raises and the view does not catch.
- `chain.invoke` is a function parameter, and its failures are not modelled. The exception handler of `run_analysis`, which logs and wraps errors in a `RuntimeError`, is not modelled either.
- `str()` of a non-string language argument, and of a reply without `content`, is a parameter (`shown`). For bools and ints, the language text is computed.
- The `content` attribute of a reply is modelled as a string.
- React: rendering, animations, `useEffect`, the `loading` flag, `console.error`, `window.confirm` (a `confirmed` parameter) and the `isFiltersExpanded` flag are not modelled.
- The handlers' `await`s are not modelled as concurrent. Each handler runs atomically on the state it starts from.
- JavaScript: `===` between ids of mixed types is modelled by integer ids, and `split(':')` giving `undefined` is modelled as a missing order.
- The display maps' inherited object keys (such as `displayMap["constructor"]`) are not modelled. A key outside the map shows itself.
- Dates in `sortApplications` are integer timestamps, so invalid dates, and the NaN comparisons they cause, do not arise.
- `ApplicationUtils.SortApplications` fixes the order of equal keys to input order. This is what a stable `Array.prototype.sort`, required since ECMAScript 2019, gives.
- `dedupe_sorted` keeps `seen` as the list of its keys in insertion order. The dict maps each key to itself, so this list is exactly what `seen.values()` holds.
- `JdSchema.NormLocation`: idempotence is not proved. Title case after a comma split is not shown to be stable.
- The `Application.jsx` `handleSelect` duplicates `ApplicationControls.Toggle` and is not modelled separately.
- `backend/applyday/application/tests.py` expects a `total_applications` key and a field whitelist on application PATCH requests, and the code has neither. The model follows the code.
