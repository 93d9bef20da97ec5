/** `ModelDownloaderFromINI.download_from_ini`: reads the ledger file and
    runs `download_model` once per section, counting each section as a
    success, a skip or a failure. The file system and the downloads are
    inputs: `files` says what reading a path gives, and for the section at
    position i, `onDisk(i, ·)` says which paths exist when the loop reaches
    it and `download(i, ·)` what `download_model` reports then. The
    sections run one after another on the same disk, so what a section
    sees may depend on what the earlier ones did. */
module Batch {
  import opened Wrappers
  import opened Text
  import opened Paths
  import opened Sanitiser
  import opened Ledger
  import opened Fetcher

  /** A section's options as the configuration parser reads them. `None`
      is a value whose reading raises, such as a stray '%' under
      interpolation. */
  type Options = map<string, Option<string>>

  datatype SectionData = SectionData(name: string, options: Options)

  /** What reading the ledger file gives: nothing at that path, a parse
      error, or the sections in file order. */
  datatype IniFile = Missing | Unreadable(message: string) | Parsed(sections: seq<SectionData>)

  /** What one call of `download_model` gives: its (status, path) pair, or
      an exception that escaped it. */
  datatype Report = Returned(status: string, path: string) | Crashed(message: string)

  datatype Verdict = Success | Skipped | Failed

  /** The node's inputs besides the ledger path, with the file system and
      `download_model` as functions of the section's position. */
  datatype Run = Run(root: string, maxRetries: int, skipExisting: bool,
                     onDisk: (nat, string) -> bool, download: (nat, Request) -> Report)

  /** Lines 446-449: a blank path means the default ledger file. */
  function IniPath(given: string, defaultPath: string): (path: string)
    ensures IsBlank(given) ==> path == defaultPath
    ensures !IsBlank(given) ==> path == given
  {
    if IsBlank(given) then defaultPath else given
  }

  /** Reading one option of a section, with a fallback for a missing key. */
  function Get(o: Options, key: string, fallback: string): Option<string> {
    if key in o then o[key] else Some(fallback)
  }

  /** Lines 505-508: the request a section asks for, `None` when reading one
      of its values raises. */
  function SectionRequest(o: Options, maxRetries: int): (r: Option<Request>)
    requires "url" in o
    ensures r.Some? <==>
              o["url"].Some? && Get(o, "subdirectory", DefaultSubdirectory).Some? &&
              Get(o, "filename", "").Some? && Get(o, "hash", "").Some?
    ensures r.Some? ==>
              && r.value.url == o["url"].value
              && r.value.subdirectory == (if "subdirectory" in o then o["subdirectory"].value else DefaultSubdirectory)
              && r.value.filename == (if "filename" in o then o["filename"].value else "")
              && r.value.expectedHash == (if "hash" in o then o["hash"].value else "")
              && r.value.maxRetries == maxRetries
  {
    match (o["url"], Get(o, "subdirectory", DefaultSubdirectory), Get(o, "filename", ""), Get(o, "hash", ""))
    case (Some(u), Some(d), Some(f), Some(h)) => Some(Request(u, d, f, h, maxRetries))
    case _ => None
  }

  // ---------------------------------------------------------------------
  // One section
  // ---------------------------------------------------------------------

  /** The path the skip check probes, as written (line 518): the raw
      subdirectory, not the one `download_model` sanitises. */
  function SkipProbeAsWritten(root: string, req: Request): string {
    PathJoin(PathJoin(root, req.subdirectory), req.filename)
  }

  /** The path the skip check is meant to probe: the file `download_model`
      would produce, and no path at all for a subdirectory it rejects. */
  function SkipProbe(root: string, req: Request): Option<string> {
    match Sanitise(req.subdirectory)
    case Ok(d) => Some(PathJoin(PathJoin(root, d), req.filename))
    case Err(_) => None
  }

  /** The success test as written (line 533): a non-empty path and no
      "Error" anywhere in the status, the file's own name included. */
  predicate ClassifyAsWritten(r: Report) {
    r.Returned? && r.path != "" && !Contains(r.status, "Error")
  }

  /** The success test as meant: a non-empty path and a status that is not
      an error message. */
  predicate Classify(r: Report) {
    r.Returned? && r.path != "" && !(|r.status| >= 5 && r.status[..5] == "Error")
  }

  /** Lines 498-545 for the section `s` at position `i`. `asWritten`
      selects the skip probe and success test of the source; otherwise the
      corrected ones. */
  function Judge(asWritten: bool, s: SectionData, run: Run, i: nat): (v: Verdict)
    ensures "url" !in s.options ==> v == Failed
    ensures v != Failed ==> "url" in s.options && SectionRequest(s.options, run.maxRetries).Some?
    ensures "url" in s.options && SectionRequest(s.options, run.maxRetries).Some? ==>
              var req := SectionRequest(s.options, run.maxRetries).value;
              && (v == Skipped <==>
                    && run.skipExisting && req.filename != ""
                    && (if asWritten then run.onDisk(i, SkipProbeAsWritten(run.root, req))
                        else SkipProbe(run.root, req).Some? && run.onDisk(i, SkipProbe(run.root, req).value)))
              && (v == Success <==>
                    && v != Skipped
                    && (if asWritten then ClassifyAsWritten(run.download(i, req)) else Classify(run.download(i, req))))
  {
    if "url" !in s.options then Failed
    else
      match SectionRequest(s.options, run.maxRetries)
      case None => Failed
      case Some(req) =>
        var probed :=
          if asWritten then run.onDisk(i, SkipProbeAsWritten(run.root, req))
          else SkipProbe(run.root, req).Some? && run.onDisk(i, SkipProbe(run.root, req).value);
        if run.skipExisting && req.filename != "" && probed then Skipped
        else
          var r := run.download(i, req);
          if (if asWritten then ClassifyAsWritten(r) else Classify(r)) then Success else Failed
  }

  /** What a call of `download_model` gives for an outcome of the model. */
  function ReportOf(o: Outcome): Report {
    if o.status.Escaped? then Crashed(o.status.message) else Returned(StatusText(o.status), o.path)
  }

  /** The corrected success test counts exactly the runs that succeeded. */
  lemma ClassifyAgreesWithOutcome(root: string, req: Request, world: int -> Attempt)
    ensures var o := Download(root, req, world);
      Classify(ReportOf(o)) <==> Succeeded(o.status)
  {
    var o := Download(root, req, world);
    SuccessMeansPath(root, req, world);
    ClassifyStatus(o.status, o.path);
  }

  lemma ClassifyStatus(s: Status, path: string)
    requires path != "" <==> Succeeded(s)
    ensures Classify(Returned(StatusText(s), path)) <==> Succeeded(s)
  {
    StatusTextMarksSuccess(s);
    var t := StatusText(s);
    if Succeeded(s) && |t| >= 5 {
      assert t[..5][0] == t[0] == '✓';
    }
  }

  /** As written, a successful download of a file whose name contains
      "Error" is counted as a failure. */
  lemma ErrorNamedFileMiscounted(n: string, path: string, effects: seq<Effect>, entry: Option<Entry>)
    requires Contains(n, "Error") && path != ""
    ensures var o := Outcome(Downloaded(n), path, effects, entry);
      && Succeeded(o.status)
      && !ClassifyAsWritten(ReportOf(o))
      && Classify(ReportOf(o))
  {
    var head := "✓ " + "Successfully downloaded: ";
    var t := StatusText(Downloaded(n));
    assert t == head + n;
    assert t[|head|..|t|] == n;
    ContainsInSlice(t, |head|, |t|, "Error");
    assert t[0] == '✓';
  }

  /** A concrete instance: "Error.safetensors". */
  lemma ErrorNamedFileExample()
    ensures var o := Outcome(Downloaded("Error.safetensors"), "/models/checkpoints/Error.safetensors", [], None);
      Succeeded(o.status) && !ClassifyAsWritten(ReportOf(o))
  {
    var n := "Error.safetensors";
    assert n[0..5] == "Error";
    ContainsAt(n, "Error", 0);
    ErrorNamedFileMiscounted(n, "/models/checkpoints/Error.safetensors", [], None);
  }

  /** As written, a section with an absolute subdirectory whose probed file
      exists is counted as skipped, although `download_model` rejects that
      subdirectory; the corrected probe never skips it. */
  lemma AbsoluteSubdirectorySkipped(s: SectionData, run: Run, i: nat)
    requires "url" in s.options && SectionRequest(s.options, run.maxRetries).Some?
    requires var req := SectionRequest(s.options, run.maxRetries).value;
      IsAbs(req.subdirectory) && req.filename != "" && run.onDisk(i, SkipProbeAsWritten(run.root, req))
    ensures var req := SectionRequest(s.options, run.maxRetries).value;
      && Judge(true, s, run.(skipExisting := true), i) == Skipped
      && Prepare(run.root, req).Err?
      && Judge(false, s, run.(skipExisting := true), i) != Skipped
  {
    var req := SectionRequest(s.options, run.maxRetries).value;
    assert !IsSpace(req.subdirectory[0]);
    assert !IsBlank(req.subdirectory);
  }

  /** The corrected probe looks at exactly the file `download_model` would
      return for a caller-supplied name. */
  lemma SkipProbeIsTarget(root: string, req: Request)
    requires Prepare(root, req).Ok? && req.filename != ""
    ensures SkipProbe(root, req) == Some(Prepare(root, req).value.filepath)
  {
  }

  /** The probe path a section's skip check looks at, under either reading. */
  function ProbeOf(asWritten: bool, root: string, req: Request): Option<string> {
    if asWritten then Some(SkipProbeAsWritten(root, req)) else SkipProbe(root, req)
  }

  /** Two sections asking for the same file, one after the other, with
      skipping on: when the file is absent at the first, the first downloads
      it, and the file is still there when the loop reaches the second, the
      first counts as a success and the second as skipped. `save_to_ini`
      makes such pairs when a second URL gives the same file name. */
  lemma EarlierDownloadSeen(asWritten: bool, ss: seq<SectionData>, run: Run, i: nat)
    requires i + 1 < |ss| && run.skipExisting
    requires "url" in ss[i].options && SectionRequest(ss[i].options, run.maxRetries).Some?
    requires "url" in ss[i + 1].options && SectionRequest(ss[i + 1].options, run.maxRetries).Some?
    requires var a, b := SectionRequest(ss[i].options, run.maxRetries).value,
                         SectionRequest(ss[i + 1].options, run.maxRetries).value;
      && a.subdirectory == b.subdirectory && a.filename == b.filename && a.filename != ""
      && ProbeOf(asWritten, run.root, a).Some?
      && !run.onDisk(i, ProbeOf(asWritten, run.root, a).value)
      && (if asWritten then ClassifyAsWritten(run.download(i, a)) else Classify(run.download(i, a)))
      && run.download(i, a).path == ProbeOf(asWritten, run.root, a).value
      && run.onDisk(i + 1, run.download(i, a).path)
    ensures Verdicts(asWritten, ss, run)[i] == Success
    ensures Verdicts(asWritten, ss, run)[i + 1] == Skipped
  {
    var a, b := SectionRequest(ss[i].options, run.maxRetries).value,
                SectionRequest(ss[i + 1].options, run.maxRetries).value;
    assert ProbeOf(asWritten, run.root, b) == ProbeOf(asWritten, run.root, a);
  }

  // ---------------------------------------------------------------------
  // The counting loop
  // ---------------------------------------------------------------------

  /** The verdict of every section, in order, with the tests `asWritten`
      selects. */
  function Verdicts(asWritten: bool, ss: seq<SectionData>, run: Run): (vs: seq<Verdict>)
    ensures |vs| == |ss|
    ensures forall i :: 0 <= i < |ss| ==> vs[i] == Judge(asWritten, ss[i], run, i)
  {
    seq(|ss|, i requires 0 <= i < |ss| => Judge(asWritten, ss[i], run, i))
  }

  /** How many of `vs` are `v`. */
  function Count(vs: seq<Verdict>, v: Verdict): nat {
    if vs == [] then 0 else Count(vs[..|vs| - 1], v) + (if vs[|vs| - 1] == v then 1 else 0)
  }

  /** The names of the sections whose verdict is `Failed`, in order. */
  function FailedNames(ss: seq<SectionData>, vs: seq<Verdict>): seq<string>
    requires |ss| == |vs|
  {
    if ss == [] then []
    else FailedNames(ss[..|ss| - 1], vs[..|vs| - 1]) + (if vs[|vs| - 1] == Failed then [ss[|ss| - 1].name] else [])
  }

  /** Every verdict is exactly one of the three. */
  lemma {:induction false} CountsPartition(vs: seq<Verdict>)
    ensures Count(vs, Success) + Count(vs, Skipped) + Count(vs, Failed) == |vs|
  {
    if vs != [] {
      CountsPartition(vs[..|vs| - 1]);
    }
  }

  /** The failure list holds one name per failure, and a section's name is
      in it exactly when some section of that name failed. */
  lemma {:induction false} FailedNamesCount(ss: seq<SectionData>, vs: seq<Verdict>)
    requires |ss| == |vs|
    ensures |FailedNames(ss, vs)| == Count(vs, Failed)
    ensures forall n :: n in FailedNames(ss, vs) <==> exists i :: 0 <= i < |ss| && vs[i] == Failed && ss[i].name == n
  {
    if ss != [] {
      var ss', vs' := ss[..|ss| - 1], vs[..|vs| - 1];
      FailedNamesCount(ss', vs');
      forall n
        ensures n in FailedNames(ss, vs) <==> exists i :: 0 <= i < |ss| && vs[i] == Failed && ss[i].name == n
      {
        if n in FailedNames(ss', vs') {
          var i :| 0 <= i < |ss'| && vs'[i] == Failed && ss'[i].name == n;
          assert vs[i] == Failed && ss[i].name == n;
        }
        if exists i :: 0 <= i < |ss| && vs[i] == Failed && ss[i].name == n {
          var i :| 0 <= i < |ss| && vs[i] == Failed && ss[i].name == n;
          if i < |ss'| {
            assert vs'[i] == Failed && ss'[i].name == n;
          }
        }
      }
    }
  }

  /** The counters of lines 483-489. */
  datatype Tally = Tally(total: nat, success: nat, skipped: nat, failed: nat, failedModels: seq<string>)

  /** The counters of the loop: each verdict counted once. */
  function Tallied(asWritten: bool, ss: seq<SectionData>, run: Run): (t: Tally)
    ensures t.success + t.skipped + t.failed == t.total == |ss|
    ensures |t.failedModels| == t.failed
  {
    var vs := Verdicts(asWritten, ss, run);
    CountsPartition(vs);
    FailedNamesCount(ss, vs);
    Tally(|ss|, Count(vs, Success), Count(vs, Skipped), Count(vs, Failed), FailedNames(ss, vs))
  }

  /** Lines 492-545: one verdict per section, each counted once.
      `Reconcile(true, …)` is the loop as written; `Reconcile(false, …)`
      the loop with the corrected skip probe and success test. */
  method Reconcile(asWritten: bool, ss: seq<SectionData>, run: Run) returns (t: Tally)
    ensures t == Tallied(asWritten, ss, run)
    ensures t.success + t.skipped + t.failed == t.total == |ss|
  {
    ghost var vs := Verdicts(asWritten, ss, run);
    var success, skipped, failed := 0, 0, 0;
    var failedModels := [];
    var i := 0;
    while i < |ss|
      invariant 0 <= i <= |ss|
      invariant success == Count(vs[..i], Success)
      invariant skipped == Count(vs[..i], Skipped)
      invariant failed == Count(vs[..i], Failed)
      invariant failedModels == FailedNames(ss[..i], vs[..i])
    {
      var v := Judge(asWritten, ss[i], run, i);
      assert v == vs[i];
      TallyStep(ss, vs, i);
      success := success + (if v == Success then 1 else 0);
      skipped := skipped + (if v == Skipped then 1 else 0);
      failed := failed + (if v == Failed then 1 else 0);
      failedModels := failedModels + (if v == Failed then [ss[i].name] else []);
      i := i + 1;
    }
    assert vs[..|ss|] == vs;
    assert ss[..|ss|] == ss;
    t := Tally(|ss|, success, skipped, failed, failedModels);
  }

  /** What one more section adds to the counters. */
  lemma TallyStep(ss: seq<SectionData>, vs: seq<Verdict>, i: nat)
    requires |ss| == |vs| && i < |ss|
    ensures Count(vs[..i + 1], Success) == Count(vs[..i], Success) + (if vs[i] == Success then 1 else 0)
    ensures Count(vs[..i + 1], Skipped) == Count(vs[..i], Skipped) + (if vs[i] == Skipped then 1 else 0)
    ensures Count(vs[..i + 1], Failed) == Count(vs[..i], Failed) + (if vs[i] == Failed then 1 else 0)
    ensures FailedNames(ss[..i + 1], vs[..i + 1]) ==
              FailedNames(ss[..i], vs[..i]) + (if vs[i] == Failed then [ss[i].name] else [])
  {
    assert vs[..i + 1][..i] == vs[..i];
    assert ss[..i + 1][..i] == ss[..i];
  }

  /** The loop as written and the corrected loop count alike when every
      section gets the same verdict from both, which is the case unless a
      section's probe or status is one the corrected tests read differently. */
  lemma TalliesAgree(ss: seq<SectionData>, run: Run)
    requires forall i :: 0 <= i < |ss| ==> Judge(true, ss[i], run, i) == Judge(false, ss[i], run, i)
    ensures Tallied(true, ss, run) == Tallied(false, ss, run)
  {
    assert Verdicts(true, ss, run) == Verdicts(false, ss, run);
  }

  /** A section the two readings judge differently changes the counters:
      the number of failures differs by the sections on which the verdicts
      differ in whether they fail. */
  lemma {:induction false} FailedCountsDiffer(ss: seq<SectionData>, run: Run, k: nat)
    requires k < |ss|
    requires Judge(true, ss[k], run, k) == Failed && Judge(false, ss[k], run, k) != Failed
    requires forall i :: 0 <= i < |ss| && i != k ==> Judge(true, ss[i], run, i) == Judge(false, ss[i], run, i)
    ensures Tallied(true, ss, run).failed == Tallied(false, ss, run).failed + 1
  {
    CountOneDiffers(Verdicts(true, ss, run), Verdicts(false, ss, run), k, Failed);
  }

  /** Two verdict lists that agree except at `k`, where only the first is
      `v`, count `v` once more in the first. */
  lemma {:induction false} CountOneDiffers(a: seq<Verdict>, b: seq<Verdict>, k: nat, v: Verdict)
    requires |a| == |b| && k < |a|
    requires a[k] == v && b[k] != v
    requires forall i :: 0 <= i < |a| && i != k ==> a[i] == b[i]
    ensures Count(a, v) == Count(b, v) + 1
  {
    var n := |a| - 1;
    if k == n {
      assert a[..n] == b[..n];
    } else {
      CountOneDiffers(a[..n], b[..n], k, v);
    }
  }

  // ---------------------------------------------------------------------
  // The returned messages
  // ---------------------------------------------------------------------

  /** Lines 564-576: the status line. */
  function StatusMessage(t: Tally): (m: string)
    ensures |m| > 0 && (m[0] == '✓' <==> t.failed == 0)
  {
    var body := "Completed: " + NatToString(t.success) + " success, " + NatToString(t.skipped) +
                " skipped, " + NatToString(t.failed) + " failed";
    var m := (if t.failed == 0 then "✓ " else "⚠ ") + body;
    assert m[0] == (if t.failed == 0 then "✓ " else "⚠ ")[0];
    m
  }

  /** One line of the summary. */
  function SummaryLine(tag: string, n: nat): string {
    tag + NatToString(n)
  }

  /** Lines 566-571: the four-line summary. */
  function Summary(t: Tally): string {
    SummaryLine("Total: ", t.total) + "\n" + SummaryLine("Success: ", t.success) + "\n" +
    SummaryLine("Skipped: ", t.skipped) + "\n" + SummaryLine("Failed: ", t.failed)
  }

  /** Reads a line `tag` followed by a numeral. */
  function ReadLine(line: string, tag: string): Option<nat> {
    if |line| > |tag| && line[..|tag|] == tag &&
       forall i :: |tag| <= i < |line| ==> IsDigit(line[i])
    then Some(ParseDecimal(line[|tag|..]))
    else None
  }

  /** Reads the four counters back out of a summary. */
  function ReadSummary(s: string): Option<(nat, nat, nat, nat)> {
    var lines := Split(s, '\n');
    if |lines| != 4 then None
    else
      match (ReadLine(lines[0], "Total: "), ReadLine(lines[1], "Success: "),
             ReadLine(lines[2], "Skipped: "), ReadLine(lines[3], "Failed: "))
      case (Some(a), Some(b), Some(c), Some(d)) => Some((a, b, c, d))
      case _ => None
  }

  lemma SummaryLineReads(tag: string, n: nat)
    requires '\n' !in tag
    ensures '\n' !in SummaryLine(tag, n)
    ensures ReadLine(SummaryLine(tag, n), tag) == Some(n)
  {
    var l := SummaryLine(tag, n);
    var d := NatToString(n);
    assert l[..|tag|] == tag;
    assert l[|tag|..] == d;
    ParseNatToString(n);
    assert '\n' !in d by {
      forall i | 0 <= i < |d| ensures d[i] != '\n' {
        assert IsDigit(d[i]);
      }
    }
  }

  /** The summary reads back as the counters it was made from. */
  lemma SummaryReadsBack(t: Tally)
    ensures ReadSummary(Summary(t)) == Some((t.total, t.success, t.skipped, t.failed))
  {
    var a, b, c, d := SummaryLine("Total: ", t.total), SummaryLine("Success: ", t.success),
                      SummaryLine("Skipped: ", t.skipped), SummaryLine("Failed: ", t.failed);
    SummaryLineReads("Total: ", t.total);
    SummaryLineReads("Success: ", t.success);
    SummaryLineReads("Skipped: ", t.skipped);
    SummaryLineReads("Failed: ", t.failed);
    SplitFour(a, b, c, d);
    ReadFour(Summary(t), a, b, c, d);
  }

  lemma SplitFour(a: string, b: string, c: string, d: string)
    requires '\n' !in a && '\n' !in b && '\n' !in c && '\n' !in d
    ensures Split(a + "\n" + b + "\n" + c + "\n" + d, '\n') == [a, b, c, d]
  {
    assert a + "\n" + b + "\n" + c + "\n" + d == ((a + ['\n'] + b) + ['\n'] + c) + ['\n'] + d;
    SplitConcat(a, '\n', b);
    SplitConcat(a + ['\n'] + b, '\n', c);
    SplitConcat((a + ['\n'] + b) + ['\n'] + c, '\n', d);
  }

  lemma ReadFour(s: string, a: string, b: string, c: string, d: string)
    requires Split(s, '\n') == [a, b, c, d]
    requires ReadLine(a, "Total: ").Some? && ReadLine(b, "Success: ").Some?
    requires ReadLine(c, "Skipped: ").Some? && ReadLine(d, "Failed: ").Some?
    ensures ReadSummary(s) == Some((ReadLine(a, "Total: ").value, ReadLine(b, "Success: ").value,
                                   ReadLine(c, "Skipped: ").value, ReadLine(d, "Failed: ").value))
  {
  }

  /** `download_from_ini`: the (status, summary) pair it returns, as
      written when `asWritten` holds and with the corrected tests
      otherwise. */
  method DownloadFromIni(asWritten: bool, given: string, defaultPath: string, files: string -> IniFile, run: Run)
    returns (status: string, summary: string)
    ensures var path := IniPath(given, defaultPath);
      match files(path)
      case Missing => status == Failure("INI file not found: " + path) && summary == ""
      case Unreadable(m) => status == Failure("Failed to read INI file: " + m) && summary == ""
      case Parsed(ss) =>
        if ss == [] then status == Failure("No models found in INI file: " + path) && summary == ""
        else
          var t := Tallied(asWritten, ss, run);
          status == StatusMessage(t) && summary == Summary(t)
    ensures |status| > 0
    ensures status[0] == '✓' <==>
              files(IniPath(given, defaultPath)).Parsed? && files(IniPath(given, defaultPath)).sections != [] &&
              Tallied(asWritten, files(IniPath(given, defaultPath)).sections, run).failed == 0
  {
    var path := IniPath(given, defaultPath);
    match files(path) {
      case Missing =>
        status, summary := Failure("INI file not found: " + path), "";
      case Unreadable(m) =>
        status, summary := Failure("Failed to read INI file: " + m), "";
      case Parsed(ss) =>
        if ss == [] {
          status, summary := Failure("No models found in INI file: " + path), "";
        } else {
          var t := Reconcile(asWritten, ss, run);
          status := StatusMessage(t);
          summary := Summary(t);
        }
    }
  }

  /** An error status: "Error: " and the reason. */
  function Failure(reason: string): (m: string)
    ensures |m| > 0 && m[0] == 'E'
  {
    "Error: " + reason
  }
}
