/*
 * NCBI GEO FTP locations of a series (GSE) accession, as the GEO surveyor
 * computes them: the accession is upper-cased, its "range" directory is the
 * accession with the trailing run of up to three digits replaced by "nnn",
 * and a fixed URL template is filled in.
 *
 * Characters are restricted to ASCII for case mapping and digit tests.
 */
module GeoUrls {

  // ---------------------------------------------------------------------
  // str.upper() on ASCII
  // ---------------------------------------------------------------------

  predicate IsLowerAscii(c: char) { 'a' <= c <= 'z' }

  predicate IsDigit(c: char) { '0' <= c <= '9' }

  function UpperChar(c: char): char
  {
    if IsLowerAscii(c) then (c as int - 32) as char else c
  }

  /**
   * `s.upper()`: each lower-case ASCII letter becomes its capital, so none
   * survives, and every other character is kept.
   */
  function Upper(s: string): (r: string)
    ensures |r| == |s|
    ensures forall i :: 0 <= i < |s| && IsLowerAscii(s[i]) ==> r[i] as int == s[i] as int - 32
    ensures forall i :: 0 <= i < |r| ==> !IsLowerAscii(r[i])
    ensures forall i :: 0 <= i < |r| && !IsLowerAscii(s[i]) ==> r[i] == s[i]
  {
    seq(|s|, i requires 0 <= i < |s| => UpperChar(s[i]))
  }

  lemma UpperIdempotent(s: string)
    ensures Upper(Upper(s)) == Upper(s)
  {
  }

  // ---------------------------------------------------------------------
  // re.sub(r"\d{1,3}$", "nnn", s)
  // ---------------------------------------------------------------------

  /** Number of digits at the end of `s`. */
  function TrailingDigits(s: string): (k: nat)
    ensures k <= |s|
    ensures forall p :: |s| - k <= p < |s| ==> IsDigit(s[p])
    ensures k < |s| ==> !IsDigit(s[|s| - k - 1])
  {
    if |s| == 0 || !IsDigit(s[|s| - 1]) then 0 else TrailingDigits(s[..|s| - 1]) + 1
  }

  /** The substitution on a string without a final newline. */
  function ShortenDigitRun(t: string): string
  {
    var k := TrailingDigits(t);
    var m := if k < 3 then k else 3;
    if m == 0 then t else t[..|t| - m] + "nnn"
  }

  /**
   * The range directory.  Python's `$` also matches just before a final
   * newline, so a digit run there is the one that is replaced.
   */
  function RangeSubdir(geo: string): string
  {
    if |geo| > 0 && geo[|geo| - 1] == '\n' then ShortenDigitRun(geo[..|geo| - 1]) + "\n"
    else ShortenDigitRun(geo)
  }

  /** Where `$` matches: at the end, or just before a final newline. */
  predicate EndAnchor(s: string, j: int)
  {
    j == |s| || (0 <= j == |s| - 1 && s[j] == '\n')
  }

  /** `\d{1,3}$` matches `s[i..j]`. */
  predicate DigitRunMatch(s: string, i: int, j: int)
  {
    0 <= i < j <= |s| && j - i <= 3 &&
    (forall p :: i <= p < j ==> IsDigit(s[p])) &&
    EndAnchor(s, j)
  }

  lemma ShortenDigitRunLeftmost(t: string, i: int)
    requires 0 <= i < |t| && |t| - i <= 3
    requires forall p :: i <= p < |t| ==> IsDigit(t[p])
    requires i == 0 || |t| - i == 3 || !IsDigit(t[i - 1])
    ensures ShortenDigitRun(t) == t[..i] + "nnn"
  {
  }

  /**
   * `re.sub` replaces the leftmost match of `\d{1,3}$`; after it nothing is
   * left that could match again, so exactly one replacement happens.
   */
  lemma RangeSubdirIsLeftmostMatch(s: string, i: int, j: int)
    requires DigitRunMatch(s, i, j)
    requires forall i', j' :: DigitRunMatch(s, i', j') ==> i <= i'
    ensures forall i', j' :: DigitRunMatch(s, i', j') ==> i' < j
    ensures RangeSubdir(s) == s[..i] + "nnn" + s[j..]
  {
    assert i > 0 ==> !DigitRunMatch(s, i - 1, j);
    if |s| > 0 && s[|s| - 1] == '\n' {
      var t := s[..|s| - 1];
      ShortenDigitRunLeftmost(t, i);
      assert s[j..] == "\n";
      assert t[..i] == s[..i];
    } else {
      ShortenDigitRunLeftmost(s, i);
      assert s[j..] == [];
    }
  }

  /** Without a match `re.sub` returns its input unchanged. */
  lemma RangeSubdirNoMatch(s: string)
    requires forall i, j :: !DigitRunMatch(s, i, j)
    ensures RangeSubdir(s) == s
  {
    if |s| > 0 && s[|s| - 1] == '\n' {
      var t := s[..|s| - 1];
      if TrailingDigits(t) > 0 {
        assert DigitRunMatch(s, |t| - 1, |t|);
      }
      assert t + "\n" == s;
    } else if TrailingDigits(s) > 0 {
      assert DigitRunMatch(s, |s| - 1, |s|);
    }
  }

  /**
   * An accession made of a prefix `p` not ending in a digit and a run `d`
   * of k >= 1 digits: the last min(k, 3) digits become "nnn".
   */
  lemma RangeSubdirOfDigitTail(p: string, d: string)
    requires |p| == 0 || !IsDigit(p[|p| - 1])
    requires 1 <= |d| && forall q :: 0 <= q < |d| ==> IsDigit(d[q])
    ensures var m := if |d| < 3 then |d| else 3;
            RangeSubdir(p + d) == p + d[..|d| - m] + "nnn"
  {
    var s := p + d;
    var m := if |d| < 3 then |d| else 3;
    var i := |s| - m;
    forall i', j' | DigitRunMatch(s, i', j') ensures i <= i' {
      assert forall q :: |p| <= q < |s| ==> s[q] == d[q - |p|];
    }
    RangeSubdirIsLeftmostMatch(s, i, |s|);
    assert s[..i] == p + d[..|d| - m];
  }

  lemma RangeSubdirExamples()
    ensures RangeSubdir("GSE12345") == "GSE12nnn"
    ensures RangeSubdir("GSE12") == "GSEnnn"
    ensures RangeSubdir("GSE") == "GSE"
  {
    RangeSubdirOfDigitTail("GSE", "12345");
    assert "GSE" + "12345" == "GSE12345";
    RangeSubdirOfDigitTail("GSE", "12");
    assert "GSE" + "12" == "GSE12";
    RangeSubdirNoMatch("GSE");
  }

  // ---------------------------------------------------------------------
  // The URL templates and str.format
  // ---------------------------------------------------------------------

  datatype Field = Root | RangeSubdirField | Record | RecordFile

  /** A format string: literal text and `{name}` replacement fields. */
  datatype Piece = Text(text: string) | Slot(field: Field)

  datatype Bindings = Bindings(root: string, rangeSubdir: string, record: string, recordFile: string)
  {
    function Lookup(f: Field): string
    {
      match f
      case Root => root
      case RangeSubdirField => rangeSubdir
      case Record => record
      case RecordFile => recordFile
    }
  }

  function PieceText(p: Piece, b: Bindings): string
  {
    match p
    case Text(t) => t
    case Slot(f) => b.Lookup(f)
  }

  /** `template.format(**b)`. */
  function Format(template: seq<Piece>, b: Bindings): string
  {
    if template == [] then "" else PieceText(template[0], b) + Format(template[1..], b)
  }

  lemma FormatCons(p: Piece, rest: seq<Piece>, b: Bindings)
    ensures Format([p] + rest, b) == PieceText(p, b) + Format(rest, b)
  {
    assert ([p] + rest)[1..] == rest;
  }

  lemma {:induction false} FormatAppend(t1: seq<Piece>, t2: seq<Piece>, b: Bindings)
    ensures Format(t1 + t2, b) == Format(t1, b) + Format(t2, b)
  {
    if t1 == [] {
      assert t1 + t2 == t2;
    } else {
      assert (t1 + t2)[0] == t1[0];
      assert (t1 + t2)[1..] == t1[1..] + t2;
      FormatAppend(t1[1..], t2, b);
    }
  }

  const FtpGeo: string := "ftp://ftp.ncbi.nlm.nih.gov/geo/"

  /** "ftp://ftp.ncbi.nlm.nih.gov/geo/{root}/{range_subdir}/{record}/" */
  const RecordDirTemplate: seq<Piece> :=
    [Text(FtpGeo), Slot(Root), Text("/"), Slot(RangeSubdirField), Text("/"), Slot(Record), Text("/")]

  /** "ftp://ftp.ncbi.nlm.nih.gov/geo/{root}/{range_subdir}/{record}/suppl/{record_file}" */
  const SupplTemplate: seq<Piece> := RecordDirTemplate + [Text("suppl/"), Slot(RecordFile)]

  /** "ftp://ftp.ncbi.nlm.nih.gov/geo/{root}/{range_subdir}/{record}/miniml/{record_file}" */
  const MinimlTemplate: seq<Piece> := RecordDirTemplate + [Text("miniml/"), Slot(RecordFile)]

  /** The directory every URL of the series lives under. */
  function SeriesDir(accession: string): string
  {
    var geo := Upper(accession);
    FtpGeo + "series" + "/" + RangeSubdir(geo) + "/" + geo + "/"
  }

  lemma FormatRecordDir(b: Bindings)
    ensures Format(RecordDirTemplate, b) == FtpGeo + b.root + "/" + b.rangeSubdir + "/" + b.record + "/"
  {
    FormatSeven(Text(FtpGeo), Slot(Root), Text("/"), Slot(RangeSubdirField), Text("/"), Slot(Record), Text("/"), b);
  }

  lemma FormatSeven(p0: Piece, p1: Piece, p2: Piece, p3: Piece, p4: Piece, p5: Piece, p6: Piece, b: Bindings)
    ensures Format([p0, p1, p2, p3, p4, p5, p6], b)
            == PieceText(p0, b) + PieceText(p1, b) + PieceText(p2, b) + PieceText(p3, b)
               + PieceText(p4, b) + PieceText(p5, b) + PieceText(p6, b)
  {
    var t1 := [p0];
    var t2 := t1 + [p1];
    var t3 := t2 + [p2];
    var t4 := t3 + [p3];
    var t5 := t4 + [p4];
    var t6 := t5 + [p5];
    assert t6 + [p6] == [p0, p1, p2, p3, p4, p5, p6];
    FormatOne(p0, b);
    FormatSnoc(t1, p1, b);
    FormatSnoc(t2, p2, b);
    FormatSnoc(t3, p3, b);
    FormatSnoc(t4, p4, b);
    FormatSnoc(t5, p5, b);
    FormatSnoc(t6, p6, b);
  }

  lemma FormatOne(p: Piece, b: Bindings)
    ensures Format([p], b) == PieceText(p, b)
  {
    FormatCons(p, [], b);
    assert [p] + [] == [p];
  }

  lemma FormatSnoc(t: seq<Piece>, p: Piece, b: Bindings)
    ensures Format(t + [p], b) == Format(t, b) + PieceText(p, b)
  {
    FormatAppend(t, [p], b);
    FormatOne(p, b);
  }

  lemma FormatFile(dir: string, b: Bindings)
    ensures Format([Text(dir), Slot(RecordFile)], b) == dir + b.recordFile
  {
    FormatCons(Slot(RecordFile), [], b);
    FormatCons(Text(dir), [Slot(RecordFile)], b);
  }

  function SeriesBindings(accession: string, recordFile: string): Bindings
  {
    var geo := Upper(accession);
    Bindings("series", RangeSubdir(geo), geo, recordFile)
  }

  function SeriesUrl(template: seq<Piece>, accession: string, suffix: string): string
  {
    var geo := Upper(accession);
    Format(template, SeriesBindings(accession, geo + suffix))
  }

  lemma FormatSeriesTemplate(dir: string, b: Bindings)
    ensures Format(RecordDirTemplate + [Text(dir), Slot(RecordFile)], b)
            == FtpGeo + b.root + "/" + b.rangeSubdir + "/" + b.record + "/" + dir + b.recordFile
  {
    FormatAppend(RecordDirTemplate, [Text(dir), Slot(RecordFile)], b);
    FormatRecordDir(b);
    FormatFile(dir, b);
  }

  lemma SeriesUrlShape(dir: string, accession: string, suffix: string)
    ensures SeriesUrl(RecordDirTemplate + [Text(dir), Slot(RecordFile)], accession, suffix)
            == SeriesDir(accession) + dir + Upper(accession) + suffix
  {
    FormatSeriesTemplate(dir, SeriesBindings(accession, Upper(accession) + suffix));
  }

  /** `get_raw_url`: the raw-data archive `<ACC>_RAW.tar` in the series' `suppl/` directory. */
  function RawUrl(accession: string): string
  {
    SeriesDir(accession) + "suppl/" + Upper(accession) + "_RAW.tar"
  }

  /** `get_non_normalized_url`: `<ACC>_non-normalized.txt.gz` in `suppl/`. */
  function NonNormalizedUrl(accession: string): string
  {
    SeriesDir(accession) + "suppl/" + Upper(accession) + "_non-normalized.txt.gz"
  }

  /** `get_miniml_url`: the family archive `<ACC>_family.xml.tgz` in `miniml/`. */
  function MinimlUrl(accession: string): string
  {
    SeriesDir(accession) + "miniml/" + Upper(accession) + "_family.xml.tgz"
  }

  /** `get_raw_url` renders the `suppl/` format string with the series bindings. */
  lemma RawUrlFormats(accession: string)
    ensures RawUrl(accession) == SeriesUrl(SupplTemplate, accession, "_RAW.tar")
  {
    SeriesUrlShape("suppl/", accession, "_RAW.tar");
  }

  /** `get_non_normalized_url` renders the same format string with another file name. */
  lemma NonNormalizedUrlFormats(accession: string)
    ensures NonNormalizedUrl(accession) == SeriesUrl(SupplTemplate, accession, "_non-normalized.txt.gz")
  {
    SeriesUrlShape("suppl/", accession, "_non-normalized.txt.gz");
  }

  /** `get_miniml_url` renders the `miniml/` format string with the series bindings. */
  lemma MinimlUrlFormats(accession: string)
    ensures MinimlUrl(accession) == SeriesUrl(MinimlTemplate, accession, "_family.xml.tgz")
  {
    SeriesUrlShape("miniml/", accession, "_family.xml.tgz");
  }

  /** The builders ignore the case of their input. */
  lemma UrlsIgnoreCase(accession: string)
    ensures RawUrl(Upper(accession)) == RawUrl(accession)
    ensures NonNormalizedUrl(Upper(accession)) == NonNormalizedUrl(accession)
    ensures MinimlUrl(Upper(accession)) == MinimlUrl(accession)
  {
    UpperIdempotent(accession);
  }

  // ---------------------------------------------------------------------
  // str.split(sep) and `[-1]`
  // ---------------------------------------------------------------------

  /** `sep.join(parts)` */
  function JoinOn(parts: seq<string>, sep: char): string
    requires |parts| >= 1
  {
    if |parts| == 1 then parts[0] else JoinOn(parts[..|parts| - 1], sep) + [sep] + parts[|parts| - 1]
  }

  /** `s.split(sep)`: never empty, and no part holds `sep`. */
  function SplitOn(s: string, sep: char): (parts: seq<string>)
    ensures |parts| >= 1
    ensures forall k :: 0 <= k < |parts| ==> sep !in parts[k]
  {
    if s == [] then [[]]
    else
      var init := SplitOn(s[..|s| - 1], sep);
      var c := s[|s| - 1];
      if c == sep then init + [[]]
      else init[..|init| - 1] + [init[|init| - 1] + [c]]
  }

  /** Joining the parts of a split with the separator gives the string back. */
  lemma {:induction false} SplitOnJoinOn(s: string, sep: char)
    ensures JoinOn(SplitOn(s, sep), sep) == s
  {
    if s != [] {
      var s' := s[..|s| - 1];
      var c := s[|s| - 1];
      var init := SplitOn(s', sep);
      SplitOnJoinOn(s', sep);
      assert s == s' + [c];
      if c == sep {
        JoinOnNewPart(init, sep);
      } else {
        JoinOnExtendLast(init, c, sep);
      }
    }
  }

  /** Starting a new, empty part adds one separator. */
  lemma JoinOnNewPart(parts: seq<string>, sep: char)
    requires |parts| >= 1
    ensures JoinOn(parts + [[]], sep) == JoinOn(parts, sep) + [sep]
  {
    var longer := parts + [[]];
    assert longer[..|longer| - 1] == parts;
    assert JoinOn(parts, sep) + [sep] + [] == JoinOn(parts, sep) + [sep];
  }

  /** Appending a character to the last part appends it to the joined string. */
  lemma JoinOnExtendLast(parts: seq<string>, c: char, sep: char)
    requires |parts| >= 1
    ensures var m := |parts| - 1;
            JoinOn(parts[..m] + [parts[m] + [c]], sep) == JoinOn(parts, sep) + [c]
  {
    var m := |parts| - 1;
    var longer := parts[..m] + [parts[m] + [c]];
    if m > 0 {
      assert longer[..|longer| - 1] == parts[..m];
      assert parts[..|parts| - 1] == parts[..m];
      var front := JoinOn(parts[..m], sep) + [sep];
      assert JoinOn(longer, sep) == front + (parts[m] + [c]);
      assert JoinOn(parts, sep) == front + parts[m];
    }
  }

  /** `s.split('/')[-1]`: the characters after the last slash. */
  function LastPathSegment(s: string): string
  {
    if s == [] || s[|s| - 1] == '/' then [] else LastPathSegment(s[..|s| - 1]) + [s[|s| - 1]]
  }

  /** `LastPathSegment` is the last part `SplitOn` yields. */
  lemma {:induction false} LastPathSegmentIsLastPart(s: string)
    ensures var parts := SplitOn(s, '/');
            LastPathSegment(s) == parts[|parts| - 1]
  {
    if s != [] {
      LastPathSegmentIsLastPart(s[..|s| - 1]);
    }
  }

  /** The text after the last slash is the last path segment. */
  lemma {:induction false} LastPathSegmentAfterSlash(x: string, y: string)
    requires '/' !in y
    ensures LastPathSegment(x + "/" + y) == y
  {
    if y == [] {
      assert x + "/" + y == x + "/";
      assert (x + "/")[..|x|] == x;
    } else {
      var y' := y[..|y| - 1];
      assert '/' !in y' by {
        forall q | 0 <= q < |y'| ensures y'[q] != '/' { assert y'[q] == y[q]; }
      }
      LastPathSegmentAfterSlash(x, y');
      var s := x + "/" + y;
      assert s[..|s| - 1] == x + "/" + y';
      assert y' + [y[|y| - 1]] == y;
    }
  }

  /** A string without a slash is its own last segment. */
  lemma {:induction false} LastPathSegmentNoSlash(y: string)
    requires '/' !in y
    ensures LastPathSegment(y) == y
  {
    if y != [] {
      var y' := y[..|y| - 1];
      assert '/' !in y' by {
        forall q | 0 <= q < |y'| ensures y'[q] != '/' { assert y'[q] == y[q]; }
      }
      LastPathSegmentNoSlash(y');
      assert y' + [y[|y| - 1]] == y;
    }
  }

  /** The MINiML file name is the record's family archive. */
  lemma MinimlFileName(accession: string)
    requires '/' !in accession
    ensures LastPathSegment(MinimlUrl(accession)) == Upper(accession) + "_family.xml.tgz"
  {
    FamilyNameNoSlash(accession);
    MinimlUrlSplit(accession);
    LastPathSegmentAfterSlash(SeriesDir(accession) + "miniml", Upper(accession) + "_family.xml.tgz");
  }

  lemma FamilyNameNoSlash(accession: string)
    requires '/' !in accession
    ensures '/' !in Upper(accession) + "_family.xml.tgz"
  {
    var name := Upper(accession) + "_family.xml.tgz";
    forall q | 0 <= q < |name| ensures name[q] != '/' {
      if q < |accession| {
        assert accession[q] != '/';
      }
    }
  }

  lemma MinimlUrlSplit(accession: string)
    ensures MinimlUrl(accession)
            == SeriesDir(accession) + "miniml" + "/" + (Upper(accession) + "_family.xml.tgz")
  {
    var dir := SeriesDir(accession);
    var name := Upper(accession) + "_family.xml.tgz";
    assert "miniml/" == "miniml" + "/";
    assert dir + "miniml/" + name == dir + "miniml" + "/" + name;
  }
}
