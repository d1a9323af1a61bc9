/**
 * The processor-job list endpoint: which jobs `get_queryset` returns for a
 * request's query parameters, and the ordering and filtering declarations
 * of the view.
 *
 * The database is a sequence of jobs; the ORM's join through original files
 * to samples yields one row per matching (file, sample) pair, which
 * `distinct()` collapses. What `check_filters` and `get_nomad_jobs` compute
 * is passed in.
 */
module ProcessorJobs {

  datatype Option<T> = None | Some(value: T)

  /** An original file of a job, by the accession codes of its samples. */
  datatype JobFile = JobFile(sampleAccessionCodes: seq<string>)

  datatype ProcessorJob = ProcessorJob(
    id: nat,
    nomadJobId: Option<string>,
    createdAt: int,
    originalFiles: seq<JobFile>)

  /** One entry of the job queue's listing: its `ID` and its `Status`. */
  datatype QueueEntry = QueueEntry(id: string, status: string)

  /** The jobs `get_queryset` selects, or the `InvalidFilters` error it raises. */
  datatype QueryResult = Jobs(jobs: seq<ProcessorJob>) | InvalidFilters(invalidFilters: seq<string>)

  const SampleAccessionCodeParam: string := "sample_accession_code"
  const NomadParam: string := "nomad"

  /** The query parameters the view handles itself, besides the filterset's. */
  const ExtraFilters: seq<string> := [SampleAccessionCodeParam, NomadParam]

  const RunningStatus: string := "running"

  predicate NoDuplicates<T(==)>(s: seq<T>)
  {
    forall i, j :: 0 <= i < j < |s| ==> s[i] != s[j]
  }

  // ---------------------------------------------------------------------
  // Sequence helpers: filter and distinct
  // ---------------------------------------------------------------------

  /** The elements of `s` that satisfy `p`, in order. */
  function Filter<T>(s: seq<T>, p: T -> bool): seq<T>
  {
    if s == [] then []
    else
      var rest := Filter(s[..|s| - 1], p);
      if p(s[|s| - 1]) then rest + [s[|s| - 1]] else rest
  }

  lemma {:induction false} FilterMembers<T>(s: seq<T>, p: T -> bool)
    ensures forall x :: x in Filter(s, p) <==> x in s && p(x)
  {
    if s != [] {
      FilterMembers(s[..|s| - 1], p);
      assert s == s[..|s| - 1] + [s[|s| - 1]];
    }
  }

  lemma {:induction false} FilterNoDuplicates<T>(s: seq<T>, p: T -> bool)
    requires NoDuplicates(s)
    ensures NoDuplicates(Filter(s, p))
  {
    if s != [] {
      var init := s[..|s| - 1];
      FilterNoDuplicates(init, p);
      FilterMembers(init, p);
      assert s[|s| - 1] !in init;
    }
  }

  /** `distinct()`: the first occurrence of each element, in order. */
  function Distinct<T(==)>(s: seq<T>): seq<T>
  {
    if s == [] then []
    else
      var rest := Distinct(s[..|s| - 1]);
      if s[|s| - 1] in rest then rest else rest + [s[|s| - 1]]
  }

  /** `Distinct` keeps every element once and adds none. */
  lemma {:induction false} DistinctSpec<T>(s: seq<T>)
    ensures forall x :: x in Distinct(s) <==> x in s
    ensures NoDuplicates(Distinct(s))
  {
    if s != [] {
      DistinctSpec(s[..|s| - 1]);
      assert s == s[..|s| - 1] + [s[|s| - 1]];
    }
  }

  /** Appending `k` copies of `x` adds `x` to the distinct elements once, if it is new. */
  lemma {:induction false} DistinctAppendCopies<T>(s: seq<T>, x: T, k: nat)
    ensures Distinct(s + Copies(x, k))
            == if k > 0 && x !in Distinct(s) then Distinct(s) + [x] else Distinct(s)
  {
    if k == 0 {
      assert s + Copies(x, k) == s;
    } else {
      var u := s + Copies(x, k - 1);
      var t := s + Copies(x, k);
      assert t[..|t| - 1] == u && t[|t| - 1] == x;
      assert Distinct(t) == if x in Distinct(u) then Distinct(u) else Distinct(u) + [x];
      DistinctAppendCopies(s, x, k - 1);
      if k == 1 {
        assert u == s;
      } else {
        assert x in Distinct(u) by {
          assert u[|u| - 1] == x;
          DistinctSpec(u);
        }
      }
    }
  }

  function Copies<T>(x: T, k: nat): seq<T>
  {
    seq(k, _ => x)
  }

  // ---------------------------------------------------------------------
  // The sample filter
  // ---------------------------------------------------------------------

  /** How often `code` occurs in `codes`. */
  function Count(codes: seq<string>, code: string): nat
  {
    if codes == [] then 0
    else Count(codes[..|codes| - 1], code) + (if codes[|codes| - 1] == code then 1 else 0)
  }

  lemma {:induction false} CountPositive(codes: seq<string>, code: string)
    ensures Count(codes, code) > 0 <==> code in codes
  {
    if codes != [] {
      CountPositive(codes[..|codes| - 1], code);
      assert codes == codes[..|codes| - 1] + [codes[|codes| - 1]];
    }
  }

  /** The rows the join `original_files__samples__accession_code` yields for one job. */
  function JoinRowCount(files: seq<JobFile>, code: string): nat
  {
    if files == [] then 0
    else JoinRowCount(files[..|files| - 1], code) + Count(files[|files| - 1].sampleAccessionCodes, code)
  }

  /** Some original file of the job belongs to a sample with accession code `code`. */
  predicate HasSample(job: ProcessorJob, code: string)
  {
    exists f :: f in job.originalFiles && code in f.sampleAccessionCodes
  }

  lemma {:induction false} JoinRowCountPositive(files: seq<JobFile>, code: string)
    ensures JoinRowCount(files, code) > 0 <==> exists f :: f in files && code in f.sampleAccessionCodes
  {
    if files != [] {
      var init := files[..|files| - 1];
      var last := files[|files| - 1];
      JoinRowCountPositive(init, code);
      CountPositive(last.sampleAccessionCodes, code);
      assert files == init + [last];
    }
  }

  /** The joined rows, before `distinct()`: each job once per matching (file, sample) pair. */
  function JoinOnSample(jobs: seq<ProcessorJob>, code: string): seq<ProcessorJob>
  {
    if jobs == [] then []
    else
      var last := jobs[|jobs| - 1];
      JoinOnSample(jobs[..|jobs| - 1], code) + Copies(last, JoinRowCount(last.originalFiles, code))
  }

  lemma {:induction false} JoinOnSampleMembers(jobs: seq<ProcessorJob>, code: string)
    ensures forall x :: x in JoinOnSample(jobs, code) <==> x in jobs && HasSample(x, code)
  {
    if jobs != [] {
      var init := jobs[..|jobs| - 1];
      var last := jobs[|jobs| - 1];
      JoinOnSampleMembers(init, code);
      JoinRowCountPositive(last.originalFiles, code);
      assert jobs == init + [last];
      var k := JoinRowCount(last.originalFiles, code);
      forall x ensures x in Copies(last, k) <==> k > 0 && x == last {
        if k > 0 {
          assert Copies(last, k)[0] == last;
        }
      }
    }
  }

  /** `filter(original_files__samples__accession_code=code).distinct()` */
  function SampleFilter(jobs: seq<ProcessorJob>, code: string): seq<ProcessorJob>
  {
    Distinct(JoinOnSample(jobs, code))
  }

  /** A job is kept iff one of its files has a sample with the code, and each kept job appears once. */
  lemma SampleFilterKeeps(jobs: seq<ProcessorJob>, code: string)
    ensures forall x :: x in SampleFilter(jobs, code) <==> x in jobs && HasSample(x, code)
    ensures NoDuplicates(SampleFilter(jobs, code))
  {
    DistinctSpec(JoinOnSample(jobs, code));
    JoinOnSampleMembers(jobs, code);
  }

  /** Over distinct jobs, the join and `distinct()` amount to a plain filter that keeps the order. */
  lemma {:induction false} SampleFilterIsFilter(jobs: seq<ProcessorJob>, code: string)
    requires NoDuplicates(jobs)
    ensures SampleFilter(jobs, code) == Filter(jobs, j => HasSample(j, code))
  {
    if jobs != [] {
      var init := jobs[..|jobs| - 1];
      var last := jobs[|jobs| - 1];
      var k := JoinRowCount(last.originalFiles, code);
      SampleFilterIsFilter(init, code);
      JoinRowCountPositive(last.originalFiles, code);
      DistinctAppendCopies(JoinOnSample(init, code), last, k);
      SampleFilterKeeps(init, code);
      assert last !in init;
    }
  }

  // ---------------------------------------------------------------------
  // The queue filter
  // ---------------------------------------------------------------------

  /** The IDs of the queue entries whose status is "running", in queue order. */
  function RunningIds(entries: seq<QueueEntry>): seq<string>
  {
    if entries == [] then []
    else
      var rest := RunningIds(entries[..|entries| - 1]);
      var e := entries[|entries| - 1];
      if e.status == RunningStatus then rest + [e.id] else rest
  }

  /** The running ids are exactly the ids of entries whose status is "running". */
  lemma {:induction false} RunningIdsExact(entries: seq<QueueEntry>)
    ensures forall id :: id in RunningIds(entries) <==>
              exists e :: e in entries && e.id == id && e.status == RunningStatus
  {
    if entries != [] {
      RunningIdsExact(entries[..|entries| - 1]);
      assert entries == entries[..|entries| - 1] + [entries[|entries| - 1]];
    }
  }

  /** `nomad_job_id__in=ids`: a job without a queue id never matches. */
  predicate InQueue(job: ProcessorJob, ids: seq<string>)
  {
    job.nomadJobId.Some? && job.nomadJobId.value in ids
  }

  function QueueFilter(jobs: seq<ProcessorJob>, ids: seq<string>): seq<ProcessorJob>
  {
    Filter(jobs, j => InQueue(j, ids))
  }

  // ---------------------------------------------------------------------
  // get_queryset
  // ---------------------------------------------------------------------

  /** `query_params.get(name, None)` is truthy: present and not the empty string. */
  predicate IsSet(params: map<string, string>, name: string)
  {
    name in params && params[name] != ""
  }

  /**
   * `ProcessorJobListView.get_queryset`. `checkFilters` is what
   * `check_filters(self, ExtraFilters)` returns for the request; `entries`
   * is what `get_nomad_jobs()` returns, read only when `nomad` is set.
   */
  function GetQueryset(params: map<string, string>, checkFilters: seq<string> -> seq<string>,
                       jobs: seq<ProcessorJob>, entries: seq<QueueEntry>): (r: QueryResult)
    ensures r.InvalidFilters? <==> checkFilters(ExtraFilters) != []
    ensures r.InvalidFilters? ==> r.invalidFilters == checkFilters(ExtraFilters)
    ensures r.Jobs? && !IsSet(params, SampleAccessionCodeParam) && !IsSet(params, NomadParam) ==> r.jobs == jobs
  {
    var invalid := checkFilters(ExtraFilters);
    if invalid != [] then InvalidFilters(invalid)
    else
      var bySample :=
        if IsSet(params, SampleAccessionCodeParam)
        then SampleFilter(jobs, params[SampleAccessionCodeParam])
        else jobs;
      var byQueue :=
        if IsSet(params, NomadParam) then QueueFilter(bySample, RunningIds(entries)) else bySample;
      Jobs(byQueue)
  }

  /**
   * What the list holds: a job of the table is listed iff it passes every
   * filter that is set; with both set, that is the intersection.
   */
  lemma GetQuerysetMembers(params: map<string, string>, checkFilters: seq<string> -> seq<string>,
                           jobs: seq<ProcessorJob>, entries: seq<QueueEntry>)
    requires checkFilters(ExtraFilters) == []
    ensures var r := GetQueryset(params, checkFilters, jobs, entries);
            r.Jobs? &&
            forall x :: x in r.jobs <==>
              x in jobs &&
              (IsSet(params, SampleAccessionCodeParam) ==> HasSample(x, params[SampleAccessionCodeParam])) &&
              (IsSet(params, NomadParam) ==> InQueue(x, RunningIds(entries)))
  {
    var bySample :=
      if IsSet(params, SampleAccessionCodeParam)
      then SampleFilter(jobs, params[SampleAccessionCodeParam])
      else jobs;
    if IsSet(params, SampleAccessionCodeParam) {
      SampleFilterKeeps(jobs, params[SampleAccessionCodeParam]);
    }
    FilterMembers(bySample, j => InQueue(j, RunningIds(entries)));
  }

  /** With the sample filter set, or over a table without repeats, no job is listed twice. */
  lemma GetQuerysetNoDuplicates(params: map<string, string>, checkFilters: seq<string> -> seq<string>,
                                jobs: seq<ProcessorJob>, entries: seq<QueueEntry>)
    requires checkFilters(ExtraFilters) == []
    requires IsSet(params, SampleAccessionCodeParam) || NoDuplicates(jobs)
    ensures NoDuplicates(GetQueryset(params, checkFilters, jobs, entries).jobs)
  {
    var bySample :=
      if IsSet(params, SampleAccessionCodeParam)
      then SampleFilter(jobs, params[SampleAccessionCodeParam])
      else jobs;
    if IsSet(params, SampleAccessionCodeParam) {
      SampleFilterKeeps(jobs, params[SampleAccessionCodeParam]);
    }
    FilterNoDuplicates(bySample, j => InQueue(j, RunningIds(entries)));
  }

  // ---------------------------------------------------------------------
  // Ordering and filterset declarations
  // ---------------------------------------------------------------------

  /** `ordering_fields` */
  const OrderingFields: seq<string> := ["id", "created_at"]

  /** `ordering`: newest id first. */
  const DefaultOrdering: seq<string> := ["-id"]

  /** The field an ordering term names: the term without a leading "-". */
  function TermField(term: string): string
  {
    if |term| > 0 && term[0] == '-' then term[1..] else term
  }

  predicate ValidTerm(term: string)
  {
    TermField(term) in OrderingFields
  }

  /** A term is accepted iff it is one of the four spellings of the two allowed keys. */
  lemma ValidTerms(term: string)
    ensures ValidTerm(term) <==> term in ["id", "-id", "created_at", "-created_at"]
  {
    if |term| > 0 && term[0] == '-' {
      var rest := term[1..];
      assert term == ['-'] + rest;
      if rest == "id" {
        assert term == "-id";
      } else if rest == "created_at" {
        assert term == "-created_at";
      }
    }
  }

  /**
   * The ordering applied to a request that asks for `requested` terms: the
   * valid ones, in the order asked, or the default when none is valid.
   */
  function EffectiveOrdering(requested: seq<string>): (r: seq<string>)
    ensures r != []
  {
    var valid := Filter(requested, ValidTerm);
    if valid != [] then valid else DefaultOrdering
  }

  /** Only `id` and `created_at` ever order the list, and `-id` orders it when nothing valid is asked. */
  lemma EffectiveOrderingSpec(requested: seq<string>)
    ensures forall t :: t in EffectiveOrdering(requested) ==> TermField(t) in OrderingFields
    ensures (forall t :: t in requested ==> !ValidTerm(t)) ==> EffectiveOrdering(requested) == ["-id"]
    ensures (exists t :: t in requested && ValidTerm(t)) ==>
              forall t :: t in EffectiveOrdering(requested) <==> t in requested && ValidTerm(t)
  {
    var valid := Filter(requested, ValidTerm);
    FilterMembers(requested, ValidTerm);
    if valid != [] {
      assert valid[0] in valid;
    }
  }

  /** The serializer's fields, which are also the exact-match filterset fields. */
  const SerializerFields: seq<string> := [
    "id", "pipeline_applied", "num_retries", "retried", "worker_id", "ram_amount",
    "volume_index", "worker_version", "failure_reason", "nomad_job_id", "success",
    "original_files", "datasets", "start_time", "end_time", "created_at", "last_modified"]

  /** The exact-match filters are the serializer's fields, one for one. */
  const FilterableFields: seq<string> := SerializerFields

  /** Seventeen distinct filterable fields, neither of the view's own parameters among them. */
  lemma FilterableFieldsSpec()
    ensures |FilterableFields| == 17 && NoDuplicates(FilterableFields)
    ensures forall f :: f in ExtraFilters ==> f !in FilterableFields
    ensures forall f :: f in OrderingFields ==> f in FilterableFields
  {
    var s := FilterableFields;
    forall i, j | 0 <= i < j < |s| ensures s[i] != s[j] {
      assert |s[i]| != |s[j]| || s[i][0] != s[j][0];
    }
  }
}
