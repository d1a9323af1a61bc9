# GEO surveyor and processor-job listing, in Dafny

This project models two parts of the data refinery.

- **The GEO surveyor.** It builds the NCBI FTP locations of a GEO series (GSE) and plans, from a parsed series, which rows
  `create_experiment_and_samples_from_api` saves:
  - the experiment;
  - each new sample;
  - one original file per sample supplementary URL, up to the first `"NONE"`;
  - one original file per series-level supplementary URL;
  - the MINiML family archive;
  - every file–sample and experiment–sample association.
- **The processor-job list endpoint.** `ProcessorJobListView.get_queryset` and the view's ordering and filterset
  declarations.

`geo_urls.dfy` (module `GeoUrls`) holds the URL builders `get_raw_url`, `get_non_normalized_url` and `get_miniml_url`.
Each is modelled with its parts:
- `str.upper()`;
- `re.sub(r"\d{1,3}$", "nnn", geo)`, including Python's `$` that also matches before a final newline;
- the `str.format` template, as a list of text pieces and named slots;
- `url.split('/')[-1]`.

The substitution is checked against a reference predicate for "the leftmost match of `\d{1,3}$`". The builders are
checked against the rendering of their format templates.

`geo_survey.dfy` (module `GeoSurvey`) models the database as a `Store` class. It has one `seq` field per table, and
`.save()` appends to that field. A file's id is its row index. `CreateExperimentAndSamplesFromApi` keeps the source's
loops: over the GSMs, over each sample's supplementary URLs with the `break` at `"NONE"`, over the series supplements
and over the family URL, with the inner loops over `all_samples`. Each method is proved to append exactly what a
specification function (`GsmWrites`, `SharedWrites`, `SurveyWrites`) describes. Lemmas about those functions state
what a run writes.

`processor_job.dfy` (module `ProcessorJobs`) models `get_queryset` as a pure function over a sequence of jobs. Its
inputs:
- the request's query parameters;
- the names `check_filters` reports;
- the entries `get_nomad_jobs()` returns.

The ORM join `original_files__samples__accession_code` gives one row per matching (file, sample) pair. SQL
`DISTINCT` without `ORDER BY` fixes neither which duplicate row survives nor the order of the result; the model chooses
to keep the first of each. That choice is harmless: what is proved about the filtered list is membership and the
absence of repeats (`SampleFilterKeeps`, `GetQuerysetMembers`, `GetQuerysetNoDuplicates`), and the ordering filter
sorts the rows afterwards.

The ordering of a request follows the rule of the REST framework's ordering filter: keep the requested terms that name
an allowed field, with or without a leading `-`; if none is left, use the view's default. That rule is library
behaviour rather than code of this repository, and is stated here as such.

## Model

| member | source | states |
|---|---|---|
| GeoUrls.Upper | foreman/data_refinery_foreman/surveyor/geo.py:40 | `upper()` keeps the length, turns each lower-case letter `a`-`z` into its capital `A`-`Z`, so none is left, and keeps every other character |
| GeoUrls.UpperIdempotent | foreman/data_refinery_foreman/surveyor/geo.py:40 | upper-casing twice is upper-casing once |
| GeoUrls.RangeSubdir | foreman/data_refinery_foreman/surveyor/geo.py:42 | `sub(r"\d{1,3}$", "nnn", geo)`: the last one to three digits, at the end or just before a final newline, become "nnn"; what that means is proved by `RangeSubdirIsLeftmostMatch` and `RangeSubdirNoMatch` |
| GeoUrls.RangeSubdirIsLeftmostMatch | foreman/data_refinery_foreman/surveyor/geo.py:42 | the range directory replaces the leftmost match of `\d{1,3}$` (end or before a final newline) by "nnn", and no second match is left |
| GeoUrls.RangeSubdirNoMatch | foreman/data_refinery_foreman/surveyor/geo.py:42 | an accession without a match is its own range directory |
| GeoUrls.RangeSubdirOfDigitTail | foreman/data_refinery_foreman/surveyor/geo.py:42 | for a prefix and a run of k digits, the last min(k, 3) digits become "nnn" |
| GeoUrls.RangeSubdirExamples | foreman/data_refinery_foreman/surveyor/geo.py:42 | GSE12345 → GSE12nnn, GSE12 → GSEnnn, GSE → GSE |
| GeoUrls.RawUrl | foreman/data_refinery_foreman/surveyor/geo.py:38-51 | `get_raw_url`: `.../series/<range>/<ACC>/suppl/<ACC>_RAW.tar` with the upper-cased accession; proved equal to the rendered template by `RawUrlFormats` |
| GeoUrls.NonNormalizedUrl | foreman/data_refinery_foreman/surveyor/geo.py:53-66 | `get_non_normalized_url`: `.../series/<range>/<ACC>/suppl/<ACC>_non-normalized.txt.gz`; proved equal to the rendered template by `NonNormalizedUrlFormats` |
| GeoUrls.MinimlUrl | foreman/data_refinery_foreman/surveyor/geo.py:68-81 | `get_miniml_url`: `.../series/<range>/<ACC>/miniml/<ACC>_family.xml.tgz`; proved equal to the rendered template by `MinimlUrlFormats` |
| GeoUrls.RawUrlFormats | foreman/data_refinery_foreman/surveyor/geo.py:38-51 | the raw URL is the `suppl/` template rendered with root "series", the range directory, the upper-cased record and `<ACC>_RAW.tar` |
| GeoUrls.NonNormalizedUrlFormats | foreman/data_refinery_foreman/surveyor/geo.py:53-66 | the non-normalized URL is the `suppl/` template rendered with `<ACC>_non-normalized.txt.gz` |
| GeoUrls.MinimlUrlFormats | foreman/data_refinery_foreman/surveyor/geo.py:68-81 | the MINiML URL is the `miniml/` template rendered with `<ACC>_family.xml.tgz` |
| GeoUrls.UrlsIgnoreCase | foreman/data_refinery_foreman/surveyor/geo.py:38-81 | all three builders give the same URL for an accession and its upper-cased form |
| GeoUrls.SplitOn | foreman/data_refinery_foreman/surveyor/geo.py:169 | `split('/')` yields at least one part and no part holds the separator |
| GeoUrls.SplitOnJoinOn | foreman/data_refinery_foreman/surveyor/geo.py:169 | joining the parts of a split with the separator gives the string back |
| GeoUrls.LastPathSegment | foreman/data_refinery_foreman/surveyor/geo.py:169 | `url.split('/')[-1]`, the file name taken from a URL here and at lines 194 and 214: the characters after the last slash; `LastPathSegmentIsLastPart` proves it is the last part of the split |
| GeoUrls.LastPathSegmentIsLastPart | foreman/data_refinery_foreman/surveyor/geo.py:169 | the file name is the last part of `split('/')` |
| GeoUrls.LastPathSegmentAfterSlash | foreman/data_refinery_foreman/surveyor/geo.py:169 | the file name of `x/y` is `y` when `y` has no slash |
| GeoUrls.LastPathSegmentNoSlash | foreman/data_refinery_foreman/surveyor/geo.py:169 | a string without a slash is its own file name |
| GeoUrls.MinimlFileName | foreman/data_refinery_foreman/surveyor/geo.py:210-214 | the family file saved from the MINiML URL is named `<ACC>_family.xml.tgz` |
| GeoSurvey.TakeUntilNone | foreman/data_refinery_foreman/surveyor/geo.py:160-165 | the URLs used are a prefix of the list with no "NONE" in it, and they stop only at the end or at a "NONE" |
| GeoSurvey.GsmWrites | foreman/data_refinery_foreman/surveyor/geo.py:123-186 | the rows the loop over the GSMs appends, GSM by GSM in series order; `SurveyGsms` is proved to append exactly these, and the GsmWrites* lemmas state what they contain |
| GeoSurvey.SharedWrites | foreman/data_refinery_foreman/surveyor/geo.py:188-207 | the rows a shared-file loop appends: one file per URL, in order, each linked to every sample; `SaveSharedFiles` is proved to append exactly these, `SharedLinksLinkAll` states the links |
| GeoSurvey.SurveyWrites | foreman/data_refinery_foreman/surveyor/geo.py:91-229 | everything a run appends: the experiment unless it exists, the GSM loop, the series supplements, then the MINiML file; `CreateExperimentAndSamplesFromApi` is proved to append exactly this, and the Survey* lemmas state what it contains |
| GeoSurvey.ExistingSampleAddsOnlyAssociation | foreman/data_refinery_foreman/surveyor/geo.py:126-139 | a sample that already exists adds only its experiment association |
| GeoSurvey.NewSampleAddsFilesBeforeNone | foreman/data_refinery_foreman/surveyor/geo.py:140-186 | a new sample is saved once, gets one file and one link per URL before "NONE", then its experiment association |
| GeoSurvey.GsmWritesExperimentLinks | foreman/data_refinery_foreman/surveyor/geo.py:124-186 | the GSM loop adds one experiment association per GSM, in series order |
| GeoSurvey.GsmWritesNoExperiments | foreman/data_refinery_foreman/surveyor/geo.py:124-186 | the GSM loop saves no experiment |
| GeoSurvey.GsmWritesFileCount | foreman/data_refinery_foreman/surveyor/geo.py:124-181 | the GSM loop creates as many files as the new samples have URLs before "NONE" |
| GeoSurvey.GsmWritesOneLinkPerFile | foreman/data_refinery_foreman/surveyor/geo.py:161-181 | each sample file gets exactly one association, naming the file just saved |
| GeoSurvey.GsmWritesFileOwners | foreman/data_refinery_foreman/surveyor/geo.py:160-181 | every sample file is a fresh archive named after its URL; the URL comes before "NONE" in a new sample's list, and the file is linked to that sample |
| GeoSurvey.SharedLinksLinkAll | foreman/data_refinery_foreman/surveyor/geo.py:203-207 | a shared-file loop links each of its files to every sample and makes no other link |
| GeoSurvey.SharedLinksAppend | foreman/data_refinery_foreman/surveyor/geo.py:189-227 | the supplement loop then the family loop make the links of one loop over both URL lists |
| GeoSurvey.SharedWritesAppend | foreman/data_refinery_foreman/surveyor/geo.py:189-227 | the two shared-file loops write what one loop over both URL lists writes |
| GeoSurvey.SeriesWritesInOrder | foreman/data_refinery_foreman/surveyor/geo.py:91-227 | the rows of a run, table by table, are the experiment (only when new), then the GSM loop's, then the shared-file loops' |
| GeoSurvey.SurveyAssociatesEverySample | foreman/data_refinery_foreman/surveyor/geo.py:91-186 | a run saves the experiment only when it is new, and associates every GSM with it, in order |
| GeoSurvey.SurveyFiles | foreman/data_refinery_foreman/surveyor/geo.py:167-219 | after the sample files comes one file per shared URL, in order; every file is an undownloaded archive named after its URL |
| GeoSurvey.SurveyLinksSharedFiles | foreman/data_refinery_foreman/surveyor/geo.py:189-227 | every shared file is linked to every GSM of the series |
| GeoSurvey.SurveyFamilyFile | foreman/data_refinery_foreman/surveyor/geo.py:209-219 | a run's last file is the MINiML archive from `get_miniml_url`, named `<ACC>_family.xml.tgz` |
| GeoSurvey.Store.SaveExperiment | foreman/data_refinery_foreman/surveyor/geo.py:109 | saving an experiment appends its row and changes nothing else |
| GeoSurvey.Store.SaveSample | foreman/data_refinery_foreman/surveyor/geo.py:148 | saving a sample appends its row and changes nothing else |
| GeoSurvey.Store.SaveOriginalFile | foreman/data_refinery_foreman/surveyor/geo.py:174 | saving a file appends it; its id is its row index |
| GeoSurvey.Store.SaveFileSampleLink | foreman/data_refinery_foreman/surveyor/geo.py:181 | an association names a stored file and is appended |
| GeoSurvey.Store.SaveExperimentSampleLink | foreman/data_refinery_foreman/surveyor/geo.py:138 | an experiment association is appended |
| GeoSurvey.SaveExperimentUnlessExists | foreman/data_refinery_foreman/surveyor/geo.py:91-109 | an existing experiment is left alone; a new one appends exactly its row |
| GeoSurvey.LinkToAll | foreman/data_refinery_foreman/surveyor/geo.py:203-207 | links one file to each sample of `all_samples`, in order |
| GeoSurvey.SaveSharedFiles | foreman/data_refinery_foreman/surveyor/geo.py:189-207 | the supplement loop appends what `SharedWrites` says |
| GeoSurvey.SaveSampleFiles | foreman/data_refinery_foreman/surveyor/geo.py:160-181 | a new sample's file loop appends one file and one link per URL up to the first "NONE" |
| GeoSurvey.SurveyGsm | foreman/data_refinery_foreman/surveyor/geo.py:126-186 | one pass of the GSM loop appends what `GsmStep` says and adds the sample's file count to the table |
| GeoSurvey.SurveyGsms | foreman/data_refinery_foreman/surveyor/geo.py:123-186 | the GSM loop appends what `GsmWrites` says and returns `all_samples` in series order |
| GeoSurvey.SaveSeriesFiles | foreman/data_refinery_foreman/surveyor/geo.py:188-227 | the supplement loop and the family loop append the shared files of the supplements then the MINiML URL |
| GeoSurvey.CreateExperimentAndSamplesFromApi | foreman/data_refinery_foreman/surveyor/geo.py:91-229 | a run appends exactly `SurveyWrites` to the store, keeps every association pointing at a stored file, and returns `all_samples` |
| ProcessorJobs.DistinctSpec | api/data_refinery_api/views/jobs/processor_job.py:86-88 | `distinct()` keeps each row once and adds none |
| ProcessorJobs.JoinOnSample | api/data_refinery_api/views/jobs/processor_job.py:86-87 | the join over `original_files__samples__accession_code`: one row per (file, sample) pair whose sample has the code; `JoinOnSampleMembers` states which jobs occur |
| ProcessorJobs.SampleFilter | api/data_refinery_api/views/jobs/processor_job.py:85-88 | the join followed by `distinct()`; `SampleFilterKeeps` and `SampleFilterIsFilter` state which jobs are kept |
| ProcessorJobs.JoinOnSampleMembers | api/data_refinery_api/views/jobs/processor_job.py:86-87 | the join yields exactly the jobs with a file whose sample has the code |
| ProcessorJobs.SampleFilterKeeps | api/data_refinery_api/views/jobs/processor_job.py:84-88 | with the sample filter, a job is kept iff one of its files has a sample with the code, and no job is listed twice |
| ProcessorJobs.SampleFilterIsFilter | api/data_refinery_api/views/jobs/processor_job.py:86-88 | over distinct jobs, join plus `distinct()` is a plain order-keeping filter |
| ProcessorJobs.RunningIds | api/data_refinery_api/views/jobs/processor_job.py:92-94 | the IDs of the queue entries whose status is "running"; `RunningIdsExact` states exactly which ids occur |
| ProcessorJobs.InQueue | api/data_refinery_api/views/jobs/processor_job.py:95 | `nomad_job_id__in`: a job matches when it has a queue job id and that id is among the running ids |
| ProcessorJobs.QueueFilter | api/data_refinery_api/views/jobs/processor_job.py:95 | keeps, in order, the jobs for which `InQueue` holds; `GetQuerysetMembers` states the result |
| ProcessorJobs.RunningIdsExact | api/data_refinery_api/views/jobs/processor_job.py:92-94 | the running ids are exactly the `ID`s of queue entries whose `Status` is "running" |
| ProcessorJobs.IsSet | api/data_refinery_api/views/jobs/processor_job.py:84-85 | a query parameter is truthy when it is present and not the empty string (the same test guards the queue filter at lines 90-91) |
| ProcessorJobs.GetQueryset | api/data_refinery_api/views/jobs/processor_job.py:76-97 | `InvalidFilters` is raised iff the filter check names something, and it carries exactly those names; with neither parameter set, all jobs are listed |
| ProcessorJobs.GetQuerysetMembers | api/data_refinery_api/views/jobs/processor_job.py:82-97 | a job is listed iff it is in the table and passes each filter that is set: the intersection when both are set, a subset always |
| ProcessorJobs.GetQuerysetNoDuplicates | api/data_refinery_api/views/jobs/processor_job.py:84-95 | with the sample filter set, or over a table without repeats, no job is listed twice |
| ProcessorJobs.ValidTerms | api/data_refinery_api/views/jobs/processor_job.py:73 | an ordering term is accepted iff it is `id`, `-id`, `created_at` or `-created_at` |
| ProcessorJobs.EffectiveOrdering | api/data_refinery_api/views/jobs/processor_job.py:73-74 | the ordering a request gets: the requested terms that name `id` or `created_at`, else the default `-id`; never empty |
| ProcessorJobs.EffectiveOrderingSpec | api/data_refinery_api/views/jobs/processor_job.py:73-74 | only `id` and `created_at` order the list; with no valid term asked for, the order is `-id`; otherwise it holds the same terms as the valid ones asked for (as a set: order and repeats are not stated) |
| ProcessorJobs.FilterableFieldsSpec | api/data_refinery_api/views/jobs/processor_job.py:21-39 | the filterset fields are the serializer's 17 distinct fields; they include both ordering fields and neither of the view's own parameters |

## Left out

- Downloading and parsing the series with GEOparse (geo.py:88). The parsed series is an input: the GSMs in `gse.gsms` order, each with its accession, whether its sample exists and its `supplementary_file` list, and the series' `supplementary_file` list.
- Whether the experiment exists (geo.py:91-96) is an input. The experiment's metadata fields, its annotation, the sample annotations, the organism lookup, the sample title and all logging are not modelled; rows are identified by accession only.
- Database ids are row indices of an append-only table. Transactions, concurrency and the `Experiment`/`Sample` lookups raising anything but "does not exist" are not modelled.
- `all_samples` holds sample objects in the source; the model returns their accessions.
- GeoUrls.Upper: models `str.upper()` on ASCII letters only, because Unicode case mapping is outside the model.
- GeoUrls.RangeSubdirIsLeftmostMatch: `\d` is taken as the ASCII digits, while Python's `\d` also matches other Unicode decimal digits.
- `discover_experiment_and_samples`, `source_type` and `GeoUnsupportedPlatformException` are outside the modelled core.
- `check_filters` and `get_nomad_jobs` are not in the modelled files. Their results are inputs, and a failure of the queue call is not modelled.
- Query parameters are a map with one value per name. A repeated parameter, for which `QueryDict.get` returns the last value, is not modelled.
- The exact-match filtering that the filter backend derives from `filterset_fields` is not modelled; only the field list is.
- Ordering is modelled as the choice of terms from a list already split into terms. Splitting the `ordering` parameter on commas, stripping spaces and sorting rows by the chosen terms happen in the REST framework and the database, and are left out.
- Serialization of the listed jobs, pagination and `ProcessorJobDetailView` are not modelled.
