/** `download_model`: the pre-checks, the target path, and the retry loop
    around `download_file` with hash verification and clean-up. The file
    system and the network are inputs: `world(k)` says what attempt k finds
    and what its transfer does. The result is the status the node returns,
    the path it returns, the file operations it performs in order, and the
    entry it asks `save_to_ini` to record. */
module Fetcher {
  import opened Wrappers
  import opened Text
  import opened Paths
  import opened Sanitiser
  import opened Urls
  import opened HashCheck
  import opened Ledger

  /** The node's inputs. */
  datatype Request = Request(url: string, subdirectory: string, filename: string, expectedHash: string, maxRetries: int)

  /** How one call of `download_file` ends. `header` is the name suggested
      by a Content-Disposition header, when a response carried one with a
      `filename=` parameter (quotes optional, the name itself free of
      quotes); `leftover` says whether a partly written file exists when
      the error is handled. */
  datatype Transfer =
    | Delivered(header: Option<string>)
    | Raised(header: Option<string>, message: string, leftover: bool)

  /** What attempt k meets: whether the target exists and its digest, how
      the transfer ends, and the digest of what it delivered. A digest is
      `None` when the file could not be read. */
  datatype Attempt = Attempt(present: bool, presentDigest: Option<string>, transfer: Transfer, deliveredDigest: Option<string>)

  /** How a run ends. All but `Escaped` are returned as the status string;
      `Escaped` is an exception that leaves `download_model` instead, with
      its message. */
  datatype Status =
    | UrlEmpty
    | UnsupportedUrl
    | InvalidPath(message: string)
    | AlreadyVerified(name: string)
    | Downloaded(name: string)
    | HashMismatch(tries: int)
    | TransferFailed(tries: int, message: string)
    | UnknownError
    | Escaped(message: string)

  predicate Succeeded(s: Status) {
    s.AlreadyVerified? || s.Downloaded?
  }

  /** The status string the node returns: "Error: " and the reason, or a
      check mark and the file's name. An escaped exception produces no
      status string; the error form with its message stands in for it. */
  function StatusText(s: Status): string {
    match s
    case UrlEmpty => "Error: " + "URL is empty"
    case UnsupportedUrl => "Error: " + "Unsupported URL. Only HuggingFace and CivitAI are supported."
    case InvalidPath(m) => "Error: " + m
    case AlreadyVerified(n) => "✓ " + "File already exists and verified: " + n
    case Downloaded(n) => "✓ " + "Successfully downloaded: " + n
    case HashMismatch(n) => "Error: " + "Hash verification failed after " + IntToString(n) + " attempts"
    case TransferFailed(n, m) => "Error: " + "Download failed after " + IntToString(n) + " attempts - " + m
    case UnknownError => "Error: " + "Unknown error occurred"
    case Escaped(m) => "Error: " + m
  }

  /** A status reports success exactly when its text starts with the check
      mark; every failure starts with "Error: ". `Escaped` is the exception
      case: the code returns no status text for it, and its text here is
      only a stand-in that the batch never reads (see `Batch.ReportOf`). */
  lemma StatusTextMarksSuccess(s: Status)
    ensures |StatusText(s)| > 0
    ensures Succeeded(s) <==> StatusText(s)[0] == '✓'
    ensures !Succeeded(s) ==> |StatusText(s)| >= 7 && StatusText(s)[..7] == "Error: "
  {
    var t := StatusText(s);
    if Succeeded(s) {
      var rest := if s.AlreadyVerified? then "File already exists and verified: " + s.name
                  else "Successfully downloaded: " + s.name;
      assert t == "✓ " + rest;
      assert t[0] == "✓ "[0];
    } else {
      var rest := t[7..];
      assert t == "Error: " + rest;
      assert t[..7] == "Error: ";
      assert t[0] == 'E';
    }
  }

  /** A file operation, in the order performed. */
  datatype Effect =
    | MakeDirs(dir: string)
    | Fetch(target: string)
    | Remove(path: string)

  /** How many transfers a run starts. */
  function FetchCount(effects: seq<Effect>): nat {
    if effects == [] then 0 else (if effects[0].Fetch? then 1 else 0) + FetchCount(effects[1..])
  }

  lemma FetchCountSingle(e: Effect)
    ensures FetchCount([e]) == if e.Fetch? then 1 else 0
  {
    assert [e][1..] == [];
  }

  lemma {:induction false} FetchCountConcat(a: seq<Effect>, b: seq<Effect>)
    ensures FetchCount(a + b) == FetchCount(a) + FetchCount(b)
    decreases |a|
  {
    if a == [] {
      assert a + b == b;
    } else {
      assert (a + b)[1..] == a[1..] + b;
      FetchCountConcat(a[1..], b);
    }
  }

  /** What the pre-checks settle: provider, sanitised subdirectory, file
      name and target path. */
  datatype Plan = Plan(urlType: UrlType, subdirectory: string, filename: string, filepath: string)

  /** Lines 291-314: reject an empty URL, an unknown provider or an unsafe
      subdirectory; otherwise fix the file name and the target path under
      the models root. An exception from the name extraction escapes. */
  function Prepare(root: string, req: Request): (r: Result<Plan, Status>)
    ensures req.url == "" ==> r == Err(UrlEmpty)
    ensures req.url != "" && DetectUrlType(req.url) == Unknown ==> r == Err(UnsupportedUrl)
    ensures req.url != "" && DetectUrlType(req.url) != Unknown ==>
              match Sanitise(req.subdirectory)
              case Err(e) => r == Err(InvalidPath(ErrorMessage(req.subdirectory, e)))
              case Ok(sub) =>
                match ResolveFilename(req.url, DetectUrlType(req.url), req.filename)
                case Err(m) => r == Err(Escaped(m))
                case Ok(name) => r.Ok? && r.value.subdirectory == sub && r.value.filename == name
    ensures r.Ok? ==>
              && r.value.urlType == DetectUrlType(req.url)
              && r.value.filepath == PathJoin(PathJoin(root, r.value.subdirectory), r.value.filename)
              && r.value.filepath != ""
  {
    if req.url == "" then Err(UrlEmpty)
    else
      var t := DetectUrlType(req.url);
      if t == Unknown then Err(UnsupportedUrl)
      else
        match Sanitise(req.subdirectory)
        case Err(e) => Err(InvalidPath(ErrorMessage(req.subdirectory, e)))
        case Ok(sub) =>
          match ResolveFilename(req.url, t, req.filename)
          case Err(m) => Err(Escaped(m))
          case Ok(name) => Ok(PlanFor(root, t, sub, name))
  }

  /** A rejected request is never a success, nor the fall-through error. */
  lemma PrepareErrorFails(root: string, req: Request)
    requires Prepare(root, req).Err?
    ensures !Succeeded(Prepare(root, req).error) && !Prepare(root, req).error.UnknownError?
  {
  }

  /** Lines 312-313, once the checks have passed and the name is known. */
  function PlanFor(root: string, t: UrlType, sub: string, name: string): (p: Plan)
    requires name != ""
    ensures p.urlType == t && p.subdirectory == sub && p.filename == name
    ensures p.filepath == PathJoin(PathJoin(root, sub), name)
    ensures p.filepath != ""
  {
    PathJoinEndsWith(PathJoin(root, sub), name);
    Plan(t, sub, name, PathJoin(PathJoin(root, sub), name))
  }

  /** Lines 249-257: a CivitAI transfer whose target has an empty final
      component takes the name the response suggests. */
  function Target(p: Plan, header: Option<string>): (t: string)
    requires p.filepath != ""
    ensures t != ""
  {
    if p.urlType == CivitAI && header.Some? && header.value != "" && Basename(p.filepath) == ""
    then PathJoin(Dirname(p.filepath), header.value)
    else p.filepath
  }

  /** The entry a successful run asks to record: the caller's URL and
      subdirectory as given, the resolved file name, the path returned. */
  function EntryFor(req: Request, p: Plan, path: string): Entry {
    Entry(req.url, req.subdirectory, p.filename, path, req.expectedHash)
  }

  datatype Outcome = Outcome(status: Status, path: string, effects: seq<Effect>, record: Option<Entry>)

  datatype Step = Finished(outcome: Outcome) | Retry(effects: seq<Effect>)

  /** The operations end by fetching a file and then removing it. */
  predicate EndsFetchRemove(e: seq<Effect>) {
    |e| >= 2 && e[|e| - 2].Fetch? && e[|e| - 1] == Remove(e[|e| - 2].target)
  }

  lemma EndsFetchRemoveAppend(done: seq<Effect>, e: seq<Effect>)
    requires EndsFetchRemove(e)
    ensures EndsFetchRemove(done + e)
  {
    var de := done + e;
    assert de[|de| - 2] == e[|e| - 2] && de[|de| - 1] == e[|e| - 1];
  }

  /** One pass of the loop body (lines 324-391) as attempt k. */
  function RunAttempt(p: Plan, req: Request, k: int, a: Attempt): (s: Step)
    requires p.filepath != ""
    ensures s.Retry? ==> k < req.maxRetries && FetchCount(s.effects) == 1
    ensures s.Finished? && !Succeeded(s.outcome.status) ==> k >= req.maxRetries
    ensures s.Finished? ==> var o := s.outcome;
      && FetchCount(o.effects) <= 1
      && (o.path != "" <==> Succeeded(o.status))
      && (o.record.Some? <==> Succeeded(o.status))
      && (o.record.Some? ==> o.record.value == EntryFor(req, p, o.path))
      && !o.status.UnknownError?
      && (o.status.HashMismatch? ==> o.status.tries == req.maxRetries && EndsFetchRemove(o.effects))
      && (o.status.TransferFailed? ==> o.status.tries == req.maxRetries)
    ensures s.Finished? && Succeeded(s.outcome.status) <==>
              || (a.present && VerifyHash(req.expectedHash, a.presentDigest))
              || (a.transfer.Delivered? && VerifyHash(req.expectedHash, a.deliveredDigest))
  {
    var fp := p.filepath;
    if a.present && VerifyHash(req.expectedHash, a.presentDigest) then
      Finished(Outcome(AlreadyVerified(Basename(fp)), fp, [], Some(EntryFor(req, p, fp))))
    else
      var cleared := if a.present then [Remove(fp)] else [];
      FetchCountConcat(cleared, [Fetch(fp)]);
      match a.transfer
      case Raised(h, msg, leftover) =>
        var t := Target(p, h);
        var eff := cleared + [Fetch(t)] + (if leftover then [Remove(t)] else []);
        FetchCountConcat(cleared + [Fetch(t)], if leftover then [Remove(t)] else []);
        FetchCountConcat(cleared, [Fetch(t)]);
        if k < req.maxRetries then Retry(eff)
        else Finished(Outcome(TransferFailed(req.maxRetries, msg), "", eff, None))
      case Delivered(h) =>
        var t := Target(p, h);
        FetchCountConcat(cleared, [Fetch(t), Remove(t)]);
        FetchCountConcat(cleared, [Fetch(t)]);
        if req.expectedHash != "" && !VerifyHash(req.expectedHash, a.deliveredDigest) then
          var eff := cleared + [Fetch(t), Remove(t)];
          assert [Fetch(t), Remove(t)] == [Fetch(t)] + [Remove(t)];
          FetchCountConcat([Fetch(t)], [Remove(t)]);
          FetchCountSingle(Fetch(t));
          FetchCountSingle(Remove(t));
          assert eff[|eff| - 2] == Fetch(t) && eff[|eff| - 1] == Remove(t);
          if k < req.maxRetries then Retry(eff)
          else Finished(Outcome(HashMismatch(req.maxRetries), "", eff, None))
        else
          Finished(Outcome(Downloaded(Basename(t)), t, cleared + [Fetch(t)], Some(EntryFor(req, p, t))))
  }

  /** The operations of an attempt's step, whether it ends the run or not. */
  function StepEffects(s: Step): seq<Effect> {
    if s.Retry? then s.effects else s.outcome.effects
  }

  /** What an attempt that found no verified file leaves after its transfer:
      the partial file of a failed transfer, or a delivered file that fails
      the check. */
  function Leftover(req: Request, a: Attempt, t: string): seq<Effect> {
    match a.transfer
    case Raised(_, _, leftover) => if leftover then [Remove(t)] else []
    case Delivered(_) =>
      if req.expectedHash != "" && !VerifyHash(req.expectedHash, a.deliveredDigest) then [Remove(t)] else []
  }

  /** The operations of an attempt that found no verified file: the removal
      of a file that failed the check, the transfer, and its leftover. */
  lemma AttemptEffects(p: Plan, req: Request, k: int, a: Attempt)
    requires p.filepath != ""
    requires !(a.present && VerifyHash(req.expectedHash, a.presentDigest))
    ensures var t := Target(p, a.transfer.header);
      StepEffects(RunAttempt(p, req, k, a)) ==
        (if a.present then [Remove(p.filepath)] else []) + [Fetch(t)] + Leftover(req, a, t)
  {
    if a.transfer.Raised? {
      RaisedAttemptEffects(p, req, k, a);
    } else if req.expectedHash != "" && !VerifyHash(req.expectedHash, a.deliveredDigest) {
      RejectedAttemptEffects(p, req, k, a);
    } else {
      AcceptedAttemptEffects(p, req, k, a);
    }
  }

  /** `AttemptEffects` for a transfer that raised. */
  lemma RaisedAttemptEffects(p: Plan, req: Request, k: int, a: Attempt)
    requires p.filepath != ""
    requires !(a.present && VerifyHash(req.expectedHash, a.presentDigest))
    requires a.transfer.Raised?
    ensures var t := Target(p, a.transfer.header);
      StepEffects(RunAttempt(p, req, k, a)) ==
        (if a.present then [Remove(p.filepath)] else []) + [Fetch(t)] + Leftover(req, a, t)
  {
  }

  /** `AttemptEffects` for a delivered file that fails the check. */
  lemma RejectedAttemptEffects(p: Plan, req: Request, k: int, a: Attempt)
    requires p.filepath != ""
    requires !(a.present && VerifyHash(req.expectedHash, a.presentDigest))
    requires a.transfer.Delivered? && req.expectedHash != "" && !VerifyHash(req.expectedHash, a.deliveredDigest)
    ensures var t := Target(p, a.transfer.header);
      StepEffects(RunAttempt(p, req, k, a)) ==
        (if a.present then [Remove(p.filepath)] else []) + [Fetch(t)] + Leftover(req, a, t)
  {
    var t := Target(p, a.transfer.header);
    assert [Fetch(t), Remove(t)] == [Fetch(t)] + [Remove(t)];
  }

  /** `AttemptEffects` for a delivered file that passes the check. */
  lemma AcceptedAttemptEffects(p: Plan, req: Request, k: int, a: Attempt)
    requires p.filepath != ""
    requires !(a.present && VerifyHash(req.expectedHash, a.presentDigest))
    requires a.transfer.Delivered? && !(req.expectedHash != "" && !VerifyHash(req.expectedHash, a.deliveredDigest))
    ensures var t := Target(p, a.transfer.header);
      StepEffects(RunAttempt(p, req, k, a)) ==
        (if a.present then [Remove(p.filepath)] else []) + [Fetch(t)] + Leftover(req, a, t)
  {
    var t := Target(p, a.transfer.header);
    var cleared := if a.present then [Remove(p.filepath)] else [];
    assert cleared + [Fetch(t)] == cleared + [Fetch(t)] + [];
  }

  /** An attempt that finds a file failing the check removes it before its
      one transfer; one that finds no file starts with the transfer. */
  lemma AttemptClearsBeforeFetch(p: Plan, req: Request, k: int, a: Attempt)
    requires p.filepath != ""
    requires !(a.present && VerifyHash(req.expectedHash, a.presentDigest))
    ensures var e := StepEffects(RunAttempt(p, req, k, a));
      var t := Target(p, a.transfer.header);
      && (a.present ==> |e| >= 2 && e[0] == Remove(p.filepath) && e[1] == Fetch(t))
      && (!a.present ==> |e| >= 1 && e[0] == Fetch(t))
  {
    AttemptEffects(p, req, k, a);
  }

  /** An attempt whose transfer delivers a file that passes the check, and
      that did not already find a verified file, ends the run with that
      file: its name, its path and its ledger entry. */
  lemma AttemptDownloads(p: Plan, req: Request, k: int, a: Attempt)
    requires p.filepath != ""
    requires !(a.present && VerifyHash(req.expectedHash, a.presentDigest))
    requires a.transfer.Delivered? && VerifyHash(req.expectedHash, a.deliveredDigest)
    ensures var t := Target(p, a.transfer.header);
      RunAttempt(p, req, k, a) ==
        Finished(Outcome(Downloaded(Basename(t)), t, (if a.present then [Remove(p.filepath)] else []) + [Fetch(t)],
                         Some(EntryFor(req, p, t))))
  {
  }

  /** A delivered file that fails the check, before the last attempt, is
      removed and the next attempt runs. */
  lemma MismatchRetried(p: Plan, req: Request, k: int, a: Attempt)
    requires p.filepath != "" && k < req.maxRetries
    requires !(a.present && VerifyHash(req.expectedHash, a.presentDigest))
    requires a.transfer.Delivered? && req.expectedHash != "" && !VerifyHash(req.expectedHash, a.deliveredDigest)
    ensures RunAttempt(p, req, k, a).Retry?
    ensures var e := RunAttempt(p, req, k, a).effects;
      |e| >= 2 && e[|e| - 1] == Remove(Target(p, a.transfer.header))
  {
    RejectedAttemptEffects(p, req, k, a);
  }

  /** The retry loop from attempt k up to and including the last allowed
      attempt, after the operations in `done`. */
  function Loop(p: Plan, req: Request, world: int -> Attempt, k: int, done: seq<Effect>): (o: Outcome)
    requires k >= 1 && p.filepath != ""
    ensures |o.effects| >= |done| && o.effects[..|done|] == done
    ensures o.path != "" <==> Succeeded(o.status)
    ensures o.record.Some? <==> Succeeded(o.status)
    ensures o.record.Some? ==> o.record.value == EntryFor(req, p, o.path)
    ensures o.status.UnknownError? <==> k > req.maxRetries
    ensures o.status.HashMismatch? ==> o.status.tries == req.maxRetries && EndsFetchRemove(o.effects)
    ensures o.status.TransferFailed? ==> o.status.tries == req.maxRetries
    decreases req.maxRetries - k
  {
    if k > req.maxRetries then Outcome(UnknownError, "", done, None)
    else
      match RunAttempt(p, req, k, world(k))
      case Finished(r) =>
        assert (done + r.effects)[..|done|] == done;
        if r.status.HashMismatch? then
          EndsFetchRemoveAppend(done, r.effects);
          r.(effects := done + r.effects)
        else r.(effects := done + r.effects)
      case Retry(eff) =>
        var o := Loop(p, req, world, k + 1, done + eff);
        assert o.effects[..|done|] == (done + eff)[..|done|];
        o
  }

  /** `download_model` with `root` the models directory. */
  function Download(root: string, req: Request, world: int -> Attempt): Outcome {
    match Prepare(root, req)
    case Err(s) => Outcome(s, "", [], None)
    case Ok(p) => Loop(p, req, world, 1, [MakeDirs(PathJoin(root, p.subdirectory))])
  }

  /** The retry loop as a loop: it computes the same outcome, and it never
      starts more transfers than `max_retries` allows. */
  method DownloadModel(root: string, req: Request, world: int -> Attempt) returns (o: Outcome)
    ensures o == Download(root, req, world)
    ensures FetchCount(o.effects) <= if req.maxRetries > 0 then req.maxRetries else 0
  {
    var prepared := Prepare(root, req);
    if prepared.Err? {
      return Outcome(prepared.error, "", [], None);
    }
    var p := prepared.value;
    var start := [MakeDirs(PathJoin(root, p.subdirectory))];
    FetchCountSingle(start[0]);
    o := RetryLoop(p, req, world, start);
  }

  /** Lines 323-393 as a loop, after the directory creation in `start`. */
  method RetryLoop(p: Plan, req: Request, world: int -> Attempt, start: seq<Effect>) returns (o: Outcome)
    requires p.filepath != "" && FetchCount(start) == 0
    ensures o == Loop(p, req, world, 1, start)
    ensures FetchCount(o.effects) <= if req.maxRetries > 0 then req.maxRetries else 0
  {
    var k := 1;
    var done := start;
    ghost var whole := Loop(p, req, world, 1, start);
    while k <= req.maxRetries
      invariant 1 <= k && (k == 1 || k <= req.maxRetries + 1)
      invariant Loop(p, req, world, k, done) == whole
      invariant FetchCount(done) == k - 1
      decreases req.maxRetries - k
    {
      var step := RunAttempt(p, req, k, world(k));
      RetryStep(p, req, world, k, done, whole);
      match step {
        case Finished(r) =>
          return r.(effects := done + r.effects);
        case Retry(eff) =>
          done := done + eff;
          k := k + 1;
      }
    }
    return Outcome(UnknownError, "", done, None);
  }

  /** The loop body keeps `RetryLoop`'s invariant: a finishing attempt
      yields the run's outcome within the transfer budget, a retried one
      hands on with one more transfer counted. */
  lemma RetryStep(p: Plan, req: Request, world: int -> Attempt, k: int, done: seq<Effect>, whole: Outcome)
    requires 1 <= k <= req.maxRetries && p.filepath != ""
    requires Loop(p, req, world, k, done) == whole && FetchCount(done) == k - 1
    ensures match RunAttempt(p, req, k, world(k))
      case Finished(r) => whole == r.(effects := done + r.effects) && FetchCount(whole.effects) <= req.maxRetries
      case Retry(eff) => Loop(p, req, world, k + 1, done + eff) == whole && FetchCount(done + eff) == k
  {
    LoopStep(p, req, world, k, done);
    match RunAttempt(p, req, k, world(k))
    case Finished(r) => FetchCountConcat(done, r.effects);
    case Retry(eff) => FetchCountConcat(done, eff);
  }

  /** One turn of the loop: attempt k either ends the run or hands on to
      attempt k + 1 with its operations appended. */
  lemma LoopStep(p: Plan, req: Request, world: int -> Attempt, k: int, done: seq<Effect>)
    requires 1 <= k <= req.maxRetries && p.filepath != ""
    ensures match RunAttempt(p, req, k, world(k))
      case Finished(r) => Loop(p, req, world, k, done) == r.(effects := done + r.effects)
      case Retry(eff) => Loop(p, req, world, k, done) == Loop(p, req, world, k + 1, done + eff)
  {
  }

  // ---------------------------------------------------------------------
  // Properties of a whole run
  // ---------------------------------------------------------------------

  /** A rejected request touches nothing and returns no path. */
  lemma RejectedTouchesNothing(root: string, req: Request, world: int -> Attempt)
    requires Prepare(root, req).Err?
    ensures var o := Download(root, req, world);
      o.path == "" && o.effects == [] && o.record.None? && !Succeeded(o.status)
  {
  }

  /** A path is returned, and an entry recorded, exactly on success; the
      fall-through error happens exactly when no attempt is allowed. */
  lemma SuccessMeansPath(root: string, req: Request, world: int -> Attempt)
    ensures var o := Download(root, req, world);
      && (o.path != "" <==> Succeeded(o.status))
      && (o.record.Some? <==> Succeeded(o.status))
      && (o.status.UnknownError? <==> Prepare(root, req).Ok? && req.maxRetries < 1)
  {
    match Prepare(root, req)
    case Err(s) =>
      PrepareErrorFails(root, req);
      assert Download(root, req, world) == Outcome(s, "", [], None);
    case Ok(p) =>
      var o := Loop(p, req, world, 1, [MakeDirs(PathJoin(root, p.subdirectory))]);
      assert Download(root, req, world) == o;
  }

  /** An existing file that verifies on the first attempt is returned as
      it is, and only the directory creation happens. */
  lemma ExistingVerifiedFileKept(root: string, req: Request, world: int -> Attempt)
    requires Prepare(root, req).Ok? && req.maxRetries >= 1
    requires world(1).present && VerifyHash(req.expectedHash, world(1).presentDigest)
    ensures var p := Prepare(root, req).value;
      Download(root, req, world) ==
        Outcome(AlreadyVerified(Basename(p.filepath)), p.filepath,
                [MakeDirs(PathJoin(root, p.subdirectory))], Some(EntryFor(req, p, p.filepath)))
  {
  }

  /** A first attempt whose transfer delivers a file that passes the check
      (any file, when no hash is expected) returns that file: after the
      directory creation, a file found but failing the check is removed,
      the one transfer runs, and the download is recorded. */
  lemma VerifiedDownloadReturned(root: string, req: Request, world: int -> Attempt)
    requires Prepare(root, req).Ok? && req.maxRetries >= 1
    requires !(world(1).present && VerifyHash(req.expectedHash, world(1).presentDigest))
    requires world(1).transfer.Delivered? && VerifyHash(req.expectedHash, world(1).deliveredDigest)
    ensures var p := Prepare(root, req).value;
      var t := Target(p, world(1).transfer.header);
      Download(root, req, world) ==
        Outcome(Downloaded(Basename(t)), t,
                [MakeDirs(PathJoin(root, p.subdirectory))] + (if world(1).present then [Remove(p.filepath)] else []) + [Fetch(t)],
                Some(EntryFor(req, p, t)))
  {
    var p := Prepare(root, req).value;
    var done := [MakeDirs(PathJoin(root, p.subdirectory))];
    assert Download(root, req, world) == Loop(p, req, world, 1, done);
    FirstAttemptDownloads(p, req, world, done);
  }

  lemma FirstAttemptDownloads(p: Plan, req: Request, world: int -> Attempt, done: seq<Effect>)
    requires p.filepath != "" && req.maxRetries >= 1
    requires !(world(1).present && VerifyHash(req.expectedHash, world(1).presentDigest))
    requires world(1).transfer.Delivered? && VerifyHash(req.expectedHash, world(1).deliveredDigest)
    ensures var t := Target(p, world(1).transfer.header);
      Loop(p, req, world, 1, done) ==
        Outcome(Downloaded(Basename(t)), t, done + (if world(1).present then [Remove(p.filepath)] else []) + [Fetch(t)],
                Some(EntryFor(req, p, t)))
  {
    LoopStep(p, req, world, 1, done);
    AttemptDownloads(p, req, 1, world(1));
    var t := Target(p, world(1).transfer.header);
    var cleared := if world(1).present then [Remove(p.filepath)] else [];
    assert done + (cleared + [Fetch(t)]) == done + cleared + [Fetch(t)];
  }

  /** A file found at the first attempt that fails the check is removed,
      and then exactly one transfer starts before anything else happens. */
  lemma MismatchedFileReplaced(root: string, req: Request, world: int -> Attempt)
    requires Prepare(root, req).Ok? && req.maxRetries >= 1
    requires world(1).present && !VerifyHash(req.expectedHash, world(1).presentDigest)
    ensures var p := Prepare(root, req).value;
      var e := Download(root, req, world).effects;
      && |e| >= 3
      && e[..3] == [MakeDirs(PathJoin(root, p.subdirectory)), Remove(p.filepath), Fetch(Target(p, world(1).transfer.header))]
  {
    var p := Prepare(root, req).value;
    var done := [MakeDirs(PathJoin(root, p.subdirectory))];
    assert Download(root, req, world) == Loop(p, req, world, 1, done);
    FirstAttemptClears(p, req, world, done);
  }

  lemma FirstAttemptClears(p: Plan, req: Request, world: int -> Attempt, done: seq<Effect>)
    requires p.filepath != "" && req.maxRetries >= 1 && |done| == 1
    requires world(1).present && !VerifyHash(req.expectedHash, world(1).presentDigest)
    ensures var e := Loop(p, req, world, 1, done).effects;
      |e| >= 3 && e[..3] == done + [Remove(p.filepath), Fetch(Target(p, world(1).transfer.header))]
  {
    var se := StepEffects(RunAttempt(p, req, 1, world(1)));
    LoopBeginsWithStep(p, req, world, 1, done);
    AttemptClearsBeforeFetch(p, req, 1, world(1));
    var e := Loop(p, req, world, 1, done).effects;
    assert e[..3] == (done + se)[..3];
    assert (done + se)[..3] == done + se[..2];
    assert se[..2] == [se[0], se[1]];
  }

  /** The run from attempt k begins with the operations already done and
      then those of attempt k. */
  lemma LoopBeginsWithStep(p: Plan, req: Request, world: int -> Attempt, k: int, done: seq<Effect>)
    requires 1 <= k <= req.maxRetries && p.filepath != ""
    ensures var se := StepEffects(RunAttempt(p, req, k, world(k)));
      var e := Loop(p, req, world, k, done).effects;
      |e| >= |done + se| && e[..|done + se|] == done + se
  {
    LoopStep(p, req, world, k, done);
  }

  /** With a non-empty expected hash, no file whose digest fails the check
      is ever reported, returned or recorded. */
  lemma NeverAcceptsUnverified(root: string, req: Request, world: int -> Attempt)
    requires req.expectedHash != ""
    requires forall k :: 1 <= k <= req.maxRetries ==>
               !VerifyHash(req.expectedHash, world(k).presentDigest) && !VerifyHash(req.expectedHash, world(k).deliveredDigest)
    ensures var o := Download(root, req, world);
      o.path == "" && o.record.None? && !Succeeded(o.status)
  {
    if Prepare(root, req).Ok? {
      var p := Prepare(root, req).value;
      NoAcceptFrom(p, req, world, 1, [MakeDirs(PathJoin(root, p.subdirectory))]);
    }
  }

  lemma {:induction false} NoAcceptFrom(p: Plan, req: Request, world: int -> Attempt, k: int, done: seq<Effect>)
    requires k >= 1 && p.filepath != "" && req.expectedHash != ""
    requires forall j :: k <= j <= req.maxRetries ==>
               !VerifyHash(req.expectedHash, world(j).presentDigest) && !VerifyHash(req.expectedHash, world(j).deliveredDigest)
    ensures !Succeeded(Loop(p, req, world, k, done).status)
    decreases req.maxRetries - k
  {
    if k <= req.maxRetries {
      var a := world(k);
      match RunAttempt(p, req, k, a)
      case Finished(r) =>
      case Retry(eff) =>
        NoAcceptFrom(p, req, world, k + 1, done + eff);
    }
  }

  /** When every allowed attempt finds no file and its transfer raises, the
      run reports the last error after exactly `max_retries` transfers. */
  lemma AllTransfersFail(root: string, req: Request, world: int -> Attempt)
    requires Prepare(root, req).Ok? && req.maxRetries >= 1
    requires forall k :: 1 <= k <= req.maxRetries ==> !world(k).present && world(k).transfer.Raised?
    ensures var o := Download(root, req, world);
      && o.status == TransferFailed(req.maxRetries, world(req.maxRetries).transfer.message)
      && o.path == ""
      && FetchCount(o.effects) == req.maxRetries
  {
    var p := Prepare(root, req).value;
    var start := [MakeDirs(PathJoin(root, p.subdirectory))];
    assert FetchCount(start) == 0;
    FailFrom(p, req, world, 1, start);
  }

  lemma {:induction false} FailFrom(p: Plan, req: Request, world: int -> Attempt, k: int, done: seq<Effect>)
    requires 1 <= k <= req.maxRetries && p.filepath != ""
    requires forall j :: k <= j <= req.maxRetries ==> !world(j).present && world(j).transfer.Raised?
    ensures var o := Loop(p, req, world, k, done);
      && o.status == TransferFailed(req.maxRetries, world(req.maxRetries).transfer.message)
      && FetchCount(o.effects) == FetchCount(done) + (req.maxRetries - k + 1)
    decreases req.maxRetries - k
  {
    RaisedStep(p, req, world, k, done);
    if k < req.maxRetries {
      var e := StepEffects(RunAttempt(p, req, k, world(k)));
      FailFrom(p, req, world, k + 1, done + e);
    }
  }

  /** One step of `FailFrom`: an attempt whose transfer raises adds one
      transfer, and either ends the run or hands over to the next attempt. */
  lemma RaisedStep(p: Plan, req: Request, world: int -> Attempt, k: int, done: seq<Effect>)
    requires 1 <= k <= req.maxRetries && p.filepath != ""
    requires !world(k).present && world(k).transfer.Raised?
    ensures var e := StepEffects(RunAttempt(p, req, k, world(k)));
      && FetchCount(done + e) == FetchCount(done) + 1
      && (k == req.maxRetries ==>
            Loop(p, req, world, k, done).status == TransferFailed(req.maxRetries, world(k).transfer.message)
            && Loop(p, req, world, k, done).effects == done + e)
      && (k < req.maxRetries ==> Loop(p, req, world, k, done) == Loop(p, req, world, k + 1, done + e))
  {
    var s := RunAttempt(p, req, k, world(k));
    LoopStep(p, req, world, k, done);
    RaisedAttempt(p, req, k, world(k));
    FetchCountConcat(done, StepEffects(s));
  }

  /** An attempt whose transfer raises, with no file present beforehand,
      starts one transfer, and ends the run only when it is the last one. */
  lemma RaisedAttempt(p: Plan, req: Request, k: int, a: Attempt)
    requires p.filepath != "" && !a.present && a.transfer.Raised?
    ensures match RunAttempt(p, req, k, a)
      case Finished(r) =>
        && k >= req.maxRetries
        && r.status == TransferFailed(req.maxRetries, a.transfer.message)
        && FetchCount(r.effects) == 1
      case Retry(eff) => FetchCount(eff) == 1
  {
    var t := Target(p, a.transfer.header);
    var tail := if a.transfer.leftover then [Remove(t)] else [];
    assert [] + [Fetch(t)] + tail == [Fetch(t)] + tail;
    FetchCountConcat([Fetch(t)], tail);
    FetchCountSingle(Fetch(t));
  }

  /** A derived file name is never replaced by a suggested one: the rename
      of lines 256-257 needs an empty final component, which only a
      caller-supplied name ending in '/' gives. */
  lemma DerivedNameNeverRenamed(root: string, req: Request, h: Option<string>)
    requires Prepare(root, req).Ok? && req.filename == ""
    ensures var p := Prepare(root, req).value; Target(p, h) == p.filepath
  {
    var p := Prepare(root, req).value;
    assert ResolveFilename(req.url, p.urlType, "") == Ok(p.filename);
    DerivedNameIsFinalComponent(PathJoin(root, p.subdirectory), req.url, p.urlType);
  }

  /** With a caller-supplied name ending in '/', a CivitAI response's
      suggested name does replace the final component. */
  lemma GivenDirectoryNameRenamed(p: Plan, name: string)
    requires p.urlType == CivitAI && name != "" && '/' !in name
    requires p.filepath != "" && p.filepath[|p.filepath| - 1] == '/'
    ensures Target(p, Some(name)) == PathJoin(Dirname(p.filepath), name)
    ensures Basename(Target(p, Some(name))) == name
  {
    RFindUnique(p.filepath, '/', |p.filepath| - 1);
    assert Basename(p.filepath) == "";
    var t := PathJoin(Dirname(p.filepath), name);
    assert Target(p, Some(name)) == t;
    BasenameJoin(Dirname(p.filepath), name);
    BasenameOfPlainName(name);
  }

  /** With a plain file name, the target `Prepare` builds lies inside the
      sanitised subdirectory of the models root. */
  lemma TargetUnderRoot(root: string, sub: string, name: string)
    requires Sanitise(sub).Ok?
    requires '/' !in name && name != "" && name != "." && name != ".."
    ensures var dir := Sanitise(sub).value;
      NormComponents(PathJoin(PathJoin(root, dir), name)) == NormComponents(root) + Kept(Split(dir, '/')) + [name]
  {
    var dir := Sanitise(sub).value;
    SanitisedStaysUnderRoot(root, sub);
    JoinPlainName(PathJoin(root, dir), name);
  }

  /** Joining a plain file name adds exactly that one component. */
  lemma JoinPlainName(base: string, name: string)
    requires '/' !in name && name != "" && name != "." && name != ".."
    ensures NormComponents(PathJoin(base, name)) == NormComponents(base) + [name]
  {
    assert Split(name, '/') == [name];
    JoinStaysUnderRoot(base, name);
    assert Kept([name]) == [name];
  }

  /** The path `save_to_ini` stores for a run's target: with an absolute
      models root, a subdirectory without "." components and a plain file
      name, it is `<subdirectory>/<name>`, whatever the working directory. */
  lemma StoredPathIsSubdirectoryAndName(root: string, cwd: string, req: Request)
    requires IsAbs(root) && Prepare(root, req).Ok?
    requires var p := Prepare(root, req).value;
      "." !in Split(p.subdirectory, '/') && '/' !in p.filename && p.filename != "." && p.filename != ".."
    ensures var p := Prepare(root, req).value;
      RelPath(p.filepath, root, cwd) == Some(p.subdirectory + "/" + p.filename)
  {
    var p := Prepare(root, req).value;
    assert Sanitise(req.subdirectory) == Ok(p.subdirectory);
    SafeRelativeIsPlain(p.subdirectory);
    RelPathBelowRoot(root, p.subdirectory, p.filename, cwd);
  }
}
