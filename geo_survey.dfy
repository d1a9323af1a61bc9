/*
 * The file-and-association planning of the GEO surveyor's
 * `create_experiment_and_samples_from_api`.  The database is an in-memory
 * store whose tables are sequences; each `.save()` of the source appends a
 * row.  The parsed GEO series is an input: one `Gsm` per sample, in the
 * order the series lists them, plus the series' own supplementary URLs.
 */
module GeoSurvey {
  import opened GeoUrls

  datatype OriginalFile = OriginalFile(
    sourceFilename: string,
    sourceUrl: string,
    isDownloaded: bool,
    isArchive: bool,
    hasRaw: bool)

  /** An OriginalFileSampleAssociation: a file (by its row index) and a sample (by accession). */
  datatype FileSampleLink = FileSampleLink(file: nat, sample: string)

  /** An ExperimentSampleAssociation, both ends by accession. */
  datatype ExperimentSampleLink = ExperimentSampleLink(experiment: string, sample: string)

  /**
   * One GSM of the series: its accession, whether a Sample with that
   * accession is already stored, and its `supplementary_file` metadata.
   */
  datatype Gsm = Gsm(accession: string, alreadyExists: bool, supplementaryFiles: seq<string>)

  /** The rows appended to each table, in the order they are saved. */
  datatype Writes = Writes(
    experiments: seq<string>,
    samples: seq<string>,
    files: seq<OriginalFile>,
    fileSamples: seq<FileSampleLink>,
    experimentSamples: seq<ExperimentSampleLink>)
  {
    function Then(w: Writes): Writes
    {
      Writes(experiments + w.experiments, samples + w.samples, files + w.files,
             fileSamples + w.fileSamples, experimentSamples + w.experimentSamples)
    }
  }

  const NoWrites: Writes := Writes([], [], [], [], [])

  /** The marker GEO puts in `supplementary_file` when a sample has none. */
  const NoneMarker: string := "NONE"

  /** `has_raw` is fixed before the loops and never changed. */
  const HasRaw: bool := true

  lemma ThenAssoc(a: Writes, b: Writes, c: Writes)
    ensures a.Then(b).Then(c) == a.Then(b.Then(c))
  {
  }

  lemma ThenNone(a: Writes)
    ensures a.Then(NoWrites) == a && NoWrites.Then(a) == a
  {
  }

  // ---------------------------------------------------------------------
  // What one run writes
  // ---------------------------------------------------------------------

  /** A file as the surveyor creates it from a URL. */
  function NewOriginalFile(url: string): OriginalFile
  {
    OriginalFile(LastPathSegment(url), url, false, true, HasRaw)
  }

  /** Every file the surveyor creates looks like this. */
  predicate CreatedBySurvey(f: OriginalFile)
  {
    !f.isDownloaded && f.isArchive && f.hasRaw && f.sourceFilename == LastPathSegment(f.sourceUrl)
  }

  function NewFiles(urls: seq<string>): seq<OriginalFile>
  {
    seq(|urls|, k requires 0 <= k < |urls| => NewOriginalFile(urls[k]))
  }

  /** The supplementary URLs a new sample gets files for: those before the first "NONE". */
  function TakeUntilNone(urls: seq<string>): (r: seq<string>)
    ensures |r| <= |urls| && r == urls[..|r|]
    ensures forall k :: 0 <= k < |r| ==> r[k] != NoneMarker
    ensures |r| < |urls| ==> urls[|r|] == NoneMarker
  {
    if urls == [] || urls[0] == NoneMarker then []
    else [urls[0]] + TakeUntilNone(urls[1..])
  }

  /** The prefix a loop reached when it stopped at a "NONE" or at the end. */
  lemma {:induction false} TakeUntilNoneAt(urls: seq<string>, j: nat)
    requires j <= |urls|
    requires forall k :: 0 <= k < j ==> urls[k] != NoneMarker
    requires j == |urls| || urls[j] == NoneMarker
    ensures TakeUntilNone(urls) == urls[..j]
  {
    if urls != [] && urls[0] != NoneMarker {
      assert 0 < j;
      TakeUntilNoneAt(urls[1..], j - 1);
      assert urls[..j] == [urls[0]] + urls[1..][..j - 1];
    }
  }

  /** Links from the files with row indices `base`, `base + 1`, ... to one sample. */
  function OwnLinks(base: nat, n: nat, sample: string): seq<FileSampleLink>
  {
    seq(n, k requires 0 <= k < n => FileSampleLink(base + k, sample))
  }

  /** Links from one file to each of `samples`. */
  function LinksToAll(file: nat, samples: seq<string>): seq<FileSampleLink>
  {
    seq(|samples|, q requires 0 <= q < |samples| => FileSampleLink(file, samples[q]))
  }

  function Accessions(gsms: seq<Gsm>): seq<string>
  {
    seq(|gsms|, i requires 0 <= i < |gsms| => gsms[i].accession)
  }

  /**
   * One GSM, whose new files get row indices from `base`: an existing
   * sample gets an experiment association only; a new one is saved, gets a
   * file and a link per supplementary URL before "NONE", then the
   * experiment association.
   */
  function GsmStep(base: nat, experiment: string, g: Gsm): Writes
  {
    var link := ExperimentSampleLink(experiment, g.accession);
    if g.alreadyExists then Writes([], [], [], [], [link])
    else
      var urls := TakeUntilNone(g.supplementaryFiles);
      Writes([], [g.accession], NewFiles(urls), OwnLinks(base, |urls|, g.accession), [link])
  }

  /** How many files the GSM loop creates for one GSM. */
  function NewFileCount(g: Gsm): nat
  {
    if g.alreadyExists then 0 else |TakeUntilNone(g.supplementaryFiles)|
  }

  /** How many files the GSM loop creates for `gsms`. */
  function SampleFileCount(gsms: seq<Gsm>): nat
  {
    if gsms == [] then 0 else SampleFileCount(gsms[..|gsms| - 1]) + NewFileCount(gsms[|gsms| - 1])
  }

  /** The loop over the GSMs. */
  function GsmWrites(base: nat, experiment: string, gsms: seq<Gsm>): Writes
  {
    if gsms == [] then NoWrites
    else
      var before := GsmWrites(base, experiment, gsms[..|gsms| - 1]);
      before.Then(GsmStep(base + SampleFileCount(gsms[..|gsms| - 1]), experiment, gsms[|gsms| - 1]))
  }

  /** The experiment row, saved only when the experiment does not exist yet. */
  function ExperimentWrites(accession: string, experimentExists: bool): Writes
  {
    if experimentExists then NoWrites else Writes([accession], [], [], [], [])
  }

  /** The links a shared-file loop makes: each file, in turn, to every sample. */
  function SharedLinks(base: nat, urls: seq<string>, samples: seq<string>): seq<FileSampleLink>
  {
    if urls == [] then []
    else
      var n := |urls| - 1;
      SharedLinks(base, urls[..n], samples) + LinksToAll(base + n, samples)
  }

  /** A loop that creates one file per URL and links each to every sample. */
  function SharedWrites(base: nat, urls: seq<string>, samples: seq<string>): Writes
  {
    Writes([], [], NewFiles(urls), SharedLinks(base, urls, samples), [])
  }

  /**
   * What a run writes when the file table already holds `base` rows, table
   * by table: the experiment unless it exists, the GSM loop's rows, then one
   * shared file per URL of `sharedUrls`, each linked to every GSM.
   */
  function SeriesWrites(base: nat, accession: string, experimentExists: bool,
                        gsms: seq<Gsm>, sharedUrls: seq<string>): Writes
  {
    var p := GsmWrites(base, accession, gsms);
    Writes((if experimentExists then [] else [accession]) + p.experiments,
           p.samples,
           p.files + NewFiles(sharedUrls),
           p.fileSamples + SharedLinks(base + SampleFileCount(gsms), sharedUrls, Accessions(gsms)),
           p.experimentSamples)
  }

  /** The tables of a run are filled in order: the experiment, the GSM loop, the shared-file loops. */
  lemma SeriesWritesInOrder(base: nat, accession: string, experimentExists: bool,
                            gsms: seq<Gsm>, sharedUrls: seq<string>)
    ensures SeriesWrites(base, accession, experimentExists, gsms, sharedUrls)
            == ExperimentWrites(accession, experimentExists)
                 .Then(GsmWrites(base, accession, gsms))
                 .Then(SharedWrites(base + SampleFileCount(gsms), sharedUrls, Accessions(gsms)))
  {
    var e := ExperimentWrites(accession, experimentExists);
    var p := GsmWrites(base, accession, gsms);
    var shared := SharedWrites(base + SampleFileCount(gsms), sharedUrls, Accessions(gsms));
    var ep := Writes(e.experiments + p.experiments, p.samples, p.files, p.fileSamples, p.experimentSamples);
    assert e.Then(p) == ep by {
      assert [] + p.samples == p.samples;
      assert [] + p.files == p.files;
      assert [] + p.fileSamples == p.fileSamples;
      assert [] + p.experimentSamples == p.experimentSamples;
    }
    assert ep.Then(shared) == SeriesWrites(base, accession, experimentExists, gsms, sharedUrls) by {
      assert p.samples + [] == p.samples;
      assert e.experiments + p.experiments + [] == e.experiments + p.experiments;
      assert p.experimentSamples + [] == p.experimentSamples;
    }
  }

  /**
   * Everything one survey of `accession` writes: the shared files are the
   * series-level supplementary files, then the MINiML family file.
   */
  function SurveyWrites(base: nat, accession: string, experimentExists: bool,
                        gsms: seq<Gsm>, experimentSupplements: seq<string>): Writes
  {
    SeriesWrites(base, accession, experimentExists, gsms, experimentSupplements + [MinimlUrl(accession)])
  }

  /** Two shared-file loops in a row make the links one loop over both URL lists makes. */
  lemma {:induction false} SharedLinksAppend(base: nat, u1: seq<string>, u2: seq<string>, samples: seq<string>)
    ensures SharedLinks(base, u1 + u2, samples)
            == SharedLinks(base, u1, samples) + SharedLinks(base + |u1|, u2, samples)
  {
    if u2 == [] {
      assert u1 + u2 == u1;
    } else {
      var n := |u2| - 1;
      var last := LinksToAll(base + |u1| + n, samples);
      var left := SharedLinks(base, u1, samples);
      var mid := SharedLinks(base + |u1|, u2[..n], samples);
      assert SharedLinks(base, u1 + u2[..n], samples) == left + mid by {
        SharedLinksAppend(base, u1, u2[..n], samples);
      }
      assert SharedLinks(base, u1 + u2, samples) == SharedLinks(base, u1 + u2[..n], samples) + last by {
        assert (u1 + u2)[..|u1 + u2| - 1] == u1 + u2[..n];
      }
      assert SharedLinks(base + |u1|, u2, samples) == mid + last;
      assert (left + mid) + last == left + (mid + last);
    }
  }

  /** Two shared-file loops in a row write what one loop over both URL lists writes. */
  lemma SharedWritesAppend(base: nat, u1: seq<string>, u2: seq<string>, samples: seq<string>)
    ensures SharedWrites(base, u1 + u2, samples)
            == SharedWrites(base, u1, samples).Then(SharedWrites(base + |u1|, u2, samples))
  {
    SharedLinksAppend(base, u1, u2, samples);
    assert NewFiles(u1 + u2) == NewFiles(u1) + NewFiles(u2);
  }

  // ---------------------------------------------------------------------
  // Properties of one run
  // ---------------------------------------------------------------------

  lemma {:induction false} GsmWritesExperimentLinks(base: nat, experiment: string, gsms: seq<Gsm>)
    ensures var w := GsmWrites(base, experiment, gsms);
            |w.experimentSamples| == |gsms| &&
            forall i :: 0 <= i < |gsms| ==>
              w.experimentSamples[i] == ExperimentSampleLink(experiment, gsms[i].accession)
  {
    if gsms != [] {
      GsmWritesExperimentLinks(base, experiment, gsms[..|gsms| - 1]);
    }
  }

  /** Each file made for a sample is linked once, in the order the files were made. */
  lemma {:induction false} GsmWritesOneLinkPerFile(base: nat, experiment: string, gsms: seq<Gsm>)
    ensures var w := GsmWrites(base, experiment, gsms);
            |w.fileSamples| == |w.files| &&
            forall k :: 0 <= k < |w.files| ==> w.fileSamples[k].file == base + k
  {
    if gsms != [] {
      GsmWritesOneLinkPerFile(base, experiment, gsms[..|gsms| - 1]);
      GsmWritesFileCount(base, experiment, gsms[..|gsms| - 1]);
    }
  }

  /** The GSM loop creates `SampleFileCount(gsms)` files. */
  lemma {:induction false} GsmWritesFileCount(base: nat, experiment: string, gsms: seq<Gsm>)
    ensures |GsmWrites(base, experiment, gsms).files| == SampleFileCount(gsms)
  {
    if gsms != [] {
      GsmWritesFileCount(base, experiment, gsms[..|gsms| - 1]);
    }
  }

  /**
   * Every file of the GSM loop comes from a new sample's supplementary URLs
   * before its first "NONE", and is linked to that sample.
   */
  lemma {:induction false} GsmWritesFileOwners(base: nat, experiment: string, gsms: seq<Gsm>)
    ensures var w := GsmWrites(base, experiment, gsms);
            |w.fileSamples| == |w.files| &&
            forall k :: 0 <= k < |w.files| ==>
              CreatedBySurvey(w.files[k]) &&
              exists i :: 0 <= i < |gsms| && !gsms[i].alreadyExists &&
                w.fileSamples[k].sample == gsms[i].accession &&
                w.files[k].sourceUrl in TakeUntilNone(gsms[i].supplementaryFiles)
  {
    if gsms != [] {
      var init := gsms[..|gsms| - 1];
      var before := GsmWrites(base, experiment, init);
      var g := gsms[|gsms| - 1];
      var w := GsmWrites(base, experiment, gsms);
      GsmWritesFileOwners(base, experiment, init);
      forall k | 0 <= k < |w.files|
        ensures CreatedBySurvey(w.files[k]) &&
                exists i :: 0 <= i < |gsms| && !gsms[i].alreadyExists &&
                  w.fileSamples[k].sample == gsms[i].accession &&
                  w.files[k].sourceUrl in TakeUntilNone(gsms[i].supplementaryFiles)
      {
        if k < |before.files| {
          var i :| 0 <= i < |init| && !init[i].alreadyExists &&
                   before.fileSamples[k].sample == init[i].accession &&
                   before.files[k].sourceUrl in TakeUntilNone(init[i].supplementaryFiles);
          assert gsms[i] == init[i];
        } else {
          var urls := TakeUntilNone(g.supplementaryFiles);
          assert w.files[k].sourceUrl == urls[k - |before.files|];
          assert gsms[|gsms| - 1] == g;
        }
      }
    }
  }

  /** A sample that is already stored adds only its experiment association. */
  lemma ExistingSampleAddsOnlyAssociation(base: nat, experiment: string, gsms: seq<Gsm>, g: Gsm)
    requires g.alreadyExists
    ensures GsmWrites(base, experiment, gsms + [g])
            == GsmWrites(base, experiment, gsms).Then(
                 Writes([], [], [], [], [ExperimentSampleLink(experiment, g.accession)]))
  {
    assert (gsms + [g])[..|gsms|] == gsms;
  }

  /**
   * A new sample is saved once and gets exactly one file, linked to it, per
   * supplementary URL before the first "NONE".
   */
  lemma NewSampleAddsFilesBeforeNone(base: nat, experiment: string, gsms: seq<Gsm>, g: Gsm)
    requires !g.alreadyExists
    ensures var before := GsmWrites(base, experiment, gsms);
            var w := GsmWrites(base, experiment, gsms + [g]);
            var urls := TakeUntilNone(g.supplementaryFiles);
            w.samples == before.samples + [g.accession] &&
            w.files == before.files + NewFiles(urls) &&
            w.fileSamples == before.fileSamples + OwnLinks(base + SampleFileCount(gsms), |urls|, g.accession) &&
            w.experimentSamples == before.experimentSamples + [ExperimentSampleLink(experiment, g.accession)]
  {
    assert (gsms + [g])[..|gsms|] == gsms;
  }

  /** A shared file loop links each of its files to every sample and to nothing else. */
  lemma {:induction false} SharedLinksLinkAll(base: nat, urls: seq<string>, samples: seq<string>)
    ensures var links := SharedLinks(base, urls, samples);
            |links| == |urls| * |samples| &&
            (forall file, q :: base <= file < base + |urls| && 0 <= q < |samples| ==>
               FileSampleLink(file, samples[q]) in links) &&
            (forall l :: l in links ==> base <= l.file < base + |urls| && l.sample in samples)
  {
    if urls != [] {
      var n := |urls| - 1;
      var links := SharedLinks(base, urls, samples);
      var before := SharedLinks(base, urls[..n], samples);
      SharedLinksLinkAll(base, urls[..n], samples);
      var last := LinksToAll(base + n, samples);
      assert links == before + last;
      assert |links| == n * |samples| + |samples| == |urls| * |samples|;
      forall file, q | base <= file < base + |urls| && 0 <= q < |samples|
        ensures FileSampleLink(file, samples[q]) in links
      {
        if file == base + n {
          assert last[q] == FileSampleLink(file, samples[q]);
        } else {
          assert FileSampleLink(file, samples[q]) in before;
        }
      }
    }
  }

  /** One experiment association per GSM, in series order, existing or new. */
  lemma SurveyAssociatesEverySample(base: nat, accession: string, experimentExists: bool,
                                    gsms: seq<Gsm>, sharedUrls: seq<string>)
    ensures var w := SeriesWrites(base, accession, experimentExists, gsms, sharedUrls);
            w.experiments == (if experimentExists then [] else [accession]) &&
            |w.experimentSamples| == |gsms| &&
            forall i :: 0 <= i < |gsms| ==>
              w.experimentSamples[i] == ExperimentSampleLink(accession, gsms[i].accession)
  {
    GsmWritesExperimentLinks(base, accession, gsms);
    GsmWritesNoExperiments(base, accession, gsms);
  }

  lemma {:induction false} GsmWritesNoExperiments(base: nat, experiment: string, gsms: seq<Gsm>)
    ensures GsmWrites(base, experiment, gsms).experiments == []
  {
    if gsms != [] {
      GsmWritesNoExperiments(base, experiment, gsms[..|gsms| - 1]);
    }
  }

  /**
   * After the sample files comes one file per shared URL, in order; every
   * file the run creates is a fresh, not yet downloaded archive named after
   * its URL's last segment.
   */
  lemma SurveyFiles(base: nat, accession: string, experimentExists: bool,
                    gsms: seq<Gsm>, sharedUrls: seq<string>)
    ensures |SeriesWrites(base, accession, experimentExists, gsms, sharedUrls).files|
            == SampleFileCount(gsms) + |sharedUrls|
    ensures forall f :: f in SeriesWrites(base, accession, experimentExists, gsms, sharedUrls).files ==>
              CreatedBySurvey(f)
    ensures forall k :: 0 <= k < |sharedUrls| ==>
              SeriesWrites(base, accession, experimentExists, gsms, sharedUrls).files[SampleFileCount(gsms) + k].sourceUrl
              == sharedUrls[k]
  {
    var before := GsmWrites(base, accession, gsms).files;
    var sampleFiles := SampleFileCount(gsms);
    assert forall k :: 0 <= k < |before| ==> CreatedBySurvey(before[k]) by {
      GsmWritesFileOwners(base, accession, gsms);
    }
    assert |before| == sampleFiles by {
      GsmWritesFileCount(base, accession, gsms);
    }
  }

  /** Links made before a shared-file loop stay; the loop's links reach every GSM. */
  lemma AppendSharedLinks(before: seq<FileSampleLink>, from: nat, urls: seq<string>, gsms: seq<Gsm>,
                          links: seq<FileSampleLink>)
    requires links == before + SharedLinks(from, urls, Accessions(gsms))
    ensures forall file, i :: from <= file < from + |urls| && 0 <= i < |gsms| ==>
              FileSampleLink(file, gsms[i].accession) in links
  {
    var samples := Accessions(gsms);
    SharedLinksLinkAll(from, urls, samples);
    forall file, i | from <= file < from + |urls| && 0 <= i < |gsms|
      ensures FileSampleLink(file, gsms[i].accession) in links
    {
      assert samples[i] == gsms[i].accession;
      assert FileSampleLink(file, samples[i]) in SharedLinks(from, urls, samples);
    }
  }

  /** Each shared file is linked to every GSM of the series. */
  lemma SurveyLinksSharedFiles(base: nat, accession: string, experimentExists: bool,
                               gsms: seq<Gsm>, sharedUrls: seq<string>)
    ensures var w := SeriesWrites(base, accession, experimentExists, gsms, sharedUrls);
            var from := base + SampleFileCount(gsms);
            forall file, i :: from <= file < from + |sharedUrls| && 0 <= i < |gsms| ==>
              FileSampleLink(file, gsms[i].accession) in w.fileSamples
  {
    AppendSharedLinks(GsmWrites(base, accession, gsms).fileSamples, base + SampleFileCount(gsms), sharedUrls, gsms,
                      SeriesWrites(base, accession, experimentExists, gsms, sharedUrls).fileSamples);
  }

  /** A survey's last file is the MINiML family archive, named `<ACC>_family.xml.tgz`. */
  lemma SurveyFamilyFile(base: nat, accession: string, experimentExists: bool,
                         gsms: seq<Gsm>, experimentSupplements: seq<string>)
    requires '/' !in accession
    ensures var w := SurveyWrites(base, accession, experimentExists, gsms, experimentSupplements);
            |w.files| > 0 &&
            w.files[|w.files| - 1].sourceUrl == MinimlUrl(accession) &&
            w.files[|w.files| - 1].sourceFilename == Upper(accession) + "_family.xml.tgz"
  {
    var shared := experimentSupplements + [MinimlUrl(accession)];
    SurveyFiles(base, accession, experimentExists, gsms, shared);
    var w := SeriesWrites(base, accession, experimentExists, gsms, shared);
    assert w.files[SampleFileCount(gsms) + |experimentSupplements|].sourceUrl == MinimlUrl(accession);
    var f := w.files[|w.files| - 1];
    assert f in w.files;
    MinimlFileName(accession);
  }

  // ---------------------------------------------------------------------
  // The store and the surveyor
  // ---------------------------------------------------------------------

  /** The tables the surveyor writes to. */
  class Store {
    var experiments: seq<string>
    var samples: seq<string>
    var originalFiles: seq<OriginalFile>
    var fileSamples: seq<FileSampleLink>
    var experimentSamples: seq<ExperimentSampleLink>

    /** Every file-sample association names a stored file. */
    ghost predicate Valid()
      reads this
    {
      forall l :: l in fileSamples ==> l.file < |originalFiles|
    }

    function Rows(): Writes
      reads this
    {
      Writes(experiments, samples, originalFiles, fileSamples, experimentSamples)
    }

    constructor ()
      ensures Valid() && Rows() == NoWrites
    {
      experiments, samples, originalFiles, fileSamples, experimentSamples := [], [], [], [], [];
    }

    method SaveExperiment(accession: string)
      requires Valid()
      modifies this
      ensures Valid()
      ensures Rows() == old(Rows()).Then(Writes([accession], [], [], [], []))
    {
      experiments := experiments + [accession];
    }

    method SaveSample(accession: string)
      requires Valid()
      modifies this
      ensures Valid()
      ensures Rows() == old(Rows()).Then(Writes([], [accession], [], [], []))
    {
      samples := samples + [accession];
    }

    /** Saves a file; its id is the row index it gets. */
    method SaveOriginalFile(f: OriginalFile) returns (id: nat)
      requires Valid()
      modifies this
      ensures Valid()
      ensures id == old(|originalFiles|)
      ensures Rows() == old(Rows()).Then(Writes([], [], [f], [], []))
    {
      id := |originalFiles|;
      originalFiles := originalFiles + [f];
    }

    method SaveFileSampleLink(file: nat, sample: string)
      requires Valid() && file < |originalFiles|
      modifies this
      ensures Valid()
      ensures Rows() == old(Rows()).Then(Writes([], [], [], [FileSampleLink(file, sample)], []))
    {
      fileSamples := fileSamples + [FileSampleLink(file, sample)];
    }

    method SaveExperimentSampleLink(experiment: string, sample: string)
      requires Valid()
      modifies this
      ensures Valid()
      ensures Rows() == old(Rows()).Then(Writes([], [], [], [], [ExperimentSampleLink(experiment, sample)]))
    {
      experimentSamples := experimentSamples + [ExperimentSampleLink(experiment, sample)];
    }
  }

  lemma SharedWritesStep(base: nat, urls: seq<string>, i: nat, samples: seq<string>)
    requires i < |urls|
    ensures SharedWrites(base, urls[..i + 1], samples)
            == SharedWrites(base, urls[..i], samples).Then(
                 Writes([], [], [NewOriginalFile(urls[i])], LinksToAll(base + i, samples), []))
  {
    assert urls[..i + 1][..i] == urls[..i];
    assert NewFiles(urls[..i + 1]) == NewFiles(urls[..i]) + [NewOriginalFile(urls[i])];
  }

  /** Links one saved file to each of `samples`, in order. */
  method LinkToAll(store: Store, id: nat, samples: seq<string>)
    requires store.Valid() && id < |store.originalFiles|
    modifies store
    ensures store.Valid()
    ensures store.Rows() == old(store.Rows()).Then(Writes([], [], [], LinksToAll(id, samples), []))
  {
    ghost var start := store.Rows();
    var q := 0;
    while q < |samples|
      invariant 0 <= q <= |samples|
      invariant store.Valid() && id < |store.originalFiles|
      invariant store.Rows() == start.Then(Writes([], [], [], LinksToAll(id, samples[..q]), []))
    {
      store.SaveFileSampleLink(id, samples[q]);
      assert LinksToAll(id, samples[..q + 1]) == LinksToAll(id, samples[..q]) + [FileSampleLink(id, samples[q])];
      q := q + 1;
    }
    assert samples[..q] == samples;
  }

  /** Creates a file per URL and links each to every one of `samples`. */
  method SaveSharedFiles(store: Store, urls: seq<string>, samples: seq<string>)
    requires store.Valid()
    modifies store
    ensures store.Valid()
    ensures store.Rows() == old(store.Rows()).Then(SharedWrites(old(|store.originalFiles|), urls, samples))
  {
    ghost var start := store.Rows();
    ghost var base := |store.originalFiles|;
    var i := 0;
    while i < |urls|
      invariant 0 <= i <= |urls|
      invariant store.Valid()
      invariant store.Rows() == start.Then(SharedWrites(base, urls[..i], samples))
      invariant |store.originalFiles| == base + i
    {
      ghost var before := store.Rows();
      var f := NewOriginalFile(urls[i]);
      var id := store.SaveOriginalFile(f);
      LinkToAll(store, id, samples);
      ghost var saved := Writes([], [], [f], [], []);
      ghost var linked := Writes([], [], [], LinksToAll(id, samples), []);
      ThenAssoc(before, saved, linked);
      assert saved.Then(linked) == Writes([], [], [f], LinksToAll(base + i, samples), []);
      ThenAssoc(start, SharedWrites(base, urls[..i], samples), saved.Then(linked));
      SharedWritesStep(base, urls, i, samples);
      i := i + 1;
    }
    assert urls[..i] == urls;
  }

  /**
   * The supplementary-file loop of a new sample: a file and a link per URL
   * until the first "NONE".
   */
  method SaveSampleFiles(store: Store, sample: string, urls: seq<string>)
    requires store.Valid()
    modifies store
    ensures store.Valid()
    ensures var taken := TakeUntilNone(urls);
            store.Rows() == old(store.Rows()).Then(
              Writes([], [], NewFiles(taken), OwnLinks(old(|store.originalFiles|), |taken|, sample), []))
  {
    ghost var start := store.Rows();
    ghost var base := |store.originalFiles|;
    var j := 0;
    while j < |urls|
      invariant 0 <= j <= |urls|
      invariant forall k :: 0 <= k < j ==> urls[k] != NoneMarker
      invariant store.Valid() && |store.originalFiles| == base + j
      invariant store.Rows() == start.Then(Writes([], [], NewFiles(urls[..j]), OwnLinks(base, j, sample), []))
    {
      if urls[j] == NoneMarker {
        break;
      }
      ghost var before := store.Rows();
      var f := NewOriginalFile(urls[j]);
      var id := store.SaveOriginalFile(f);
      store.SaveFileSampleLink(id, sample);
      assert NewFiles(urls[..j + 1]) == NewFiles(urls[..j]) + [f];
      assert OwnLinks(base, j + 1, sample) == OwnLinks(base, j, sample) + [FileSampleLink(id, sample)];
      j := j + 1;
    }
    TakeUntilNoneAt(urls, j);
  }

  /** One pass of the loop over the GSMs. */
  method SurveyGsm(store: Store, experiment: string, g: Gsm)
    requires store.Valid()
    modifies store
    ensures store.Valid()
    ensures store.Rows() == old(store.Rows()).Then(GsmStep(old(|store.originalFiles|), experiment, g))
    ensures |store.originalFiles| == old(|store.originalFiles|) + NewFileCount(g)
  {
    if g.alreadyExists {
      store.SaveExperimentSampleLink(experiment, g.accession);
    } else {
      ghost var start := store.Rows();
      ghost var base := |store.originalFiles|;
      store.SaveSample(g.accession);
      ghost var withSample := store.Rows();
      SaveSampleFiles(store, g.accession, g.supplementaryFiles);
      ghost var withFiles := store.Rows();
      store.SaveExperimentSampleLink(experiment, g.accession);
      NewGsmStep(base, experiment, g, start, withSample, withFiles, store.Rows());
    }
  }

  /** A new GSM's row, then its files and links, then its association make its step. */
  lemma NewGsmStep(base: nat, experiment: string, g: Gsm,
                   start: Writes, withSample: Writes, withFiles: Writes, withLink: Writes)
    requires !g.alreadyExists
    requires withSample == start.Then(Writes([], [g.accession], [], [], []))
    requires withFiles == withSample.Then(
               Writes([], [], NewFiles(TakeUntilNone(g.supplementaryFiles)),
                      OwnLinks(base, |TakeUntilNone(g.supplementaryFiles)|, g.accession), []))
    requires withLink == withFiles.Then(Writes([], [], [], [], [ExperimentSampleLink(experiment, g.accession)]))
    ensures withLink == start.Then(GsmStep(base, experiment, g))
  {
    var urls := TakeUntilNone(g.supplementaryFiles);
    var files := NewFiles(urls);
    var links := OwnLinks(base, |urls|, g.accession);
    assert withLink.samples == start.samples + [g.accession] by {
      assert withLink.samples == start.samples + [g.accession] + [] + [];
    }
    assert withLink.files == start.files + files by {
      assert withLink.files == start.files + [] + files + [];
    }
    assert withLink.fileSamples == start.fileSamples + links by {
      assert withLink.fileSamples == start.fileSamples + [] + links + [];
    }
    assert withLink.experimentSamples == start.experimentSamples + [ExperimentSampleLink(experiment, g.accession)] by {
      assert withLink.experimentSamples
             == start.experimentSamples + [] + [] + [ExperimentSampleLink(experiment, g.accession)];
    }
    assert withLink.experiments == start.experiments by {
      assert withLink.experiments == start.experiments + [] + [] + [];
    }
  }

  /** One more GSM: the rows so far plus that GSM's step are the loop's rows over one more GSM. */
  lemma GsmWritesStep(start: Writes, base: nat, experiment: string, gsms: seq<Gsm>, i: nat,
                      before: Writes, after: Writes)
    requires i < |gsms|
    requires before == start.Then(GsmWrites(base, experiment, gsms[..i]))
    requires after == before.Then(GsmStep(base + SampleFileCount(gsms[..i]), experiment, gsms[i]))
    ensures after == start.Then(GsmWrites(base, experiment, gsms[..i + 1]))
    ensures SampleFileCount(gsms[..i + 1]) == SampleFileCount(gsms[..i]) + NewFileCount(gsms[i])
  {
    assert gsms[..i + 1][..i] == gsms[..i];
    ThenAssoc(start, GsmWrites(base, experiment, gsms[..i]),
              GsmStep(base + SampleFileCount(gsms[..i]), experiment, gsms[i]));
  }

  /** The loop over the GSMs: returns `all_samples` by accession. */
  method SurveyGsms(store: Store, experiment: string, gsms: seq<Gsm>) returns (allSamples: seq<string>)
    requires store.Valid()
    modifies store
    ensures store.Valid()
    ensures allSamples == Accessions(gsms)
    ensures store.Rows() == old(store.Rows()).Then(GsmWrites(old(|store.originalFiles|), experiment, gsms))
    ensures |store.originalFiles| == old(|store.originalFiles|) + SampleFileCount(gsms)
  {
    ghost var start := store.Rows();
    ghost var base := |store.originalFiles|;
    allSamples := [];
    var i := 0;
    while i < |gsms|
      invariant 0 <= i <= |gsms|
      invariant store.Valid()
      invariant allSamples == Accessions(gsms[..i])
      invariant store.Rows() == start.Then(GsmWrites(base, experiment, gsms[..i]))
      invariant |store.originalFiles| == base + SampleFileCount(gsms[..i])
    {
      ghost var before := store.Rows();
      SurveyGsm(store, experiment, gsms[i]);
      GsmWritesStep(start, base, experiment, gsms, i, before, store.Rows());
      allSamples := allSamples + [gsms[i].accession];
      assert Accessions(gsms[..i + 1]) == Accessions(gsms[..i]) + [gsms[i].accession];
      i := i + 1;
    }
    assert gsms[..i] == gsms;
  }

  /**
   * The two loops after the GSMs: a file per series-level supplementary URL,
   * then the MINiML family file, each linked to every sample of the series.
   */
  method SaveSeriesFiles(store: Store, accession: string, experimentSupplements: seq<string>, allSamples: seq<string>)
    requires store.Valid()
    modifies store
    ensures store.Valid()
    ensures store.Rows() == old(store.Rows()).Then(
              SharedWrites(old(|store.originalFiles|), experimentSupplements + [MinimlUrl(accession)], allSamples))
  {
    ghost var start := store.Rows();
    ghost var base := |store.originalFiles|;
    var familyUrls := [MinimlUrl(accession)];
    SaveSharedFiles(store, experimentSupplements, allSamples);
    SaveSharedFiles(store, familyUrls, allSamples);
    SharedWritesAppend(base, experimentSupplements, familyUrls, allSamples);
    ThenAssoc(start, SharedWrites(base, experimentSupplements, allSamples),
              SharedWrites(base + |experimentSupplements|, familyUrls, allSamples));
  }

  /**
   * `create_experiment_and_samples_from_api` on a parsed series: returns
   * `all_samples` (by accession) and appends to the store exactly what
   * `SurveyWrites` says.
   */
  method CreateExperimentAndSamplesFromApi(store: Store, accession: string, experimentExists: bool,
                                           gsms: seq<Gsm>, experimentSupplements: seq<string>)
    returns (allSamples: seq<string>)
    requires store.Valid()
    modifies store
    ensures store.Valid()
    ensures allSamples == Accessions(gsms)
    ensures store.Rows() == old(store.Rows()).Then(
              SurveyWrites(old(|store.originalFiles|), accession, experimentExists, gsms, experimentSupplements))
  {
    ghost var start := store.Rows();
    ghost var base := |store.originalFiles|;
    SaveExperimentUnlessExists(store, accession, experimentExists);
    ghost var afterExperiment := store.Rows();
    allSamples := SurveyGsms(store, accession, gsms);
    ghost var afterGsms := store.Rows();
    SaveSeriesFiles(store, accession, experimentSupplements, allSamples);
    SurveyWritesSteps(start, base, accession, experimentExists, gsms, experimentSupplements,
                      afterExperiment, afterGsms, store.Rows());
  }

  /** Saves the experiment unless it already exists. */
  method SaveExperimentUnlessExists(store: Store, accession: string, experimentExists: bool)
    requires store.Valid()
    modifies store
    ensures store.Valid()
    ensures store.Rows() == old(store.Rows()).Then(ExperimentWrites(accession, experimentExists))
    ensures |store.originalFiles| == old(|store.originalFiles|)
  {
    if !experimentExists {
      store.SaveExperiment(accession);
    } else {
      ThenNone(store.Rows());
    }
  }

  /** The experiment, the GSM loop and the shared files, saved one after another, make a survey. */
  lemma SurveyWritesSteps(start: Writes, base: nat, accession: string, experimentExists: bool,
                          gsms: seq<Gsm>, experimentSupplements: seq<string>,
                          afterExperiment: Writes, afterGsms: Writes, afterShared: Writes)
    requires afterExperiment == start.Then(ExperimentWrites(accession, experimentExists))
    requires afterGsms == afterExperiment.Then(GsmWrites(base, accession, gsms))
    requires afterShared == afterGsms.Then(
               SharedWrites(base + SampleFileCount(gsms), experimentSupplements + [MinimlUrl(accession)], Accessions(gsms)))
    ensures afterShared == start.Then(SurveyWrites(base, accession, experimentExists, gsms, experimentSupplements))
  {
    var experiment := ExperimentWrites(accession, experimentExists);
    var perSample := GsmWrites(base, accession, gsms);
    var shared := SharedWrites(base + SampleFileCount(gsms), experimentSupplements + [MinimlUrl(accession)], Accessions(gsms));
    ThenAssoc(start, experiment, perSample);
    ThenAssoc(start, experiment.Then(perSample), shared);
    SeriesWritesInOrder(base, accession, experimentExists, gsms, experimentSupplements + [MinimlUrl(accession)]);
  }
}
