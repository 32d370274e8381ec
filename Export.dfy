/**
 * The export controller of the `usePDF` hook: the in-progress guard, the
 * recovery scan for an empty id list, the bounded retries on a missing
 * element or a failed generation, the filename, and the download request.
 *
 * The hook calls itself with the next `retryCount`; the model keeps that
 * recursion, in the method `Exporter.RunAttempts` and in the function
 * `Attempts` that specifies it. What the page and the foreign calls do at
 * each attempt is an oracle `env(retryCount)`.
 */
module Export {
  import opened Dom
  import opened PdfService

  const MaxRetries: nat := 3

  const NotFoundError: string := "未找到可导出的消息"
  const TooManyRetriesError: string := "重试次数过多，导出失败"
  const DefaultError: string := "生成 PDF 时发生错误"

  const DownloadType: string := "download_pdf"
  const FilePrefix: string := "chatgpt-conversation-"
  const FileSuffix: string := ".pdf"

  /**
   * What the environment does at one attempt: the document once the settle
   * delay is over, how the rasterizer and the download message end, and the
   * ISO time read for the filename.
   */
  datatype Attempt = Attempt(doc: seq<Element>, raster: Outcome, send: Outcome, iso: string)

  /** One `download_pdf` message to the background page; the object URL stands for its blob. */
  datatype Request = Request(kind: string, blob: Blob, filename: string)

  /**
   * The effects of a call: the final error, the id lists the service was
   * asked to render, and the download requests sent.
   */
  datatype Run = Run(error: Option<string>, renders: seq<seq<string>>, requests: seq<Request>)
  {
    function After(renders0: seq<seq<string>>, requests0: seq<Request>): Run
    {
      Run(error, renders0 + renders, requests0 + requests)
    }
  }

  /** `toISOString().replace(/[:.]/g, '-')`. */
  function Sanitize(iso: string): (r: string)
    ensures |r| == |iso|
    ensures forall i :: 0 <= i < |r| ==> r[i] != ':' && r[i] != '.'
    ensures forall i :: 0 <= i < |iso| && iso[i] != ':' && iso[i] != '.' ==> r[i] == iso[i]
    ensures forall i :: 0 <= i < |iso| && (iso[i] == ':' || iso[i] == '.') ==> r[i] == '-'
  {
    if iso == [] then []
    else [if iso[0] == ':' || iso[0] == '.' then '-' else iso[0]] + Sanitize(iso[1..])
  }

  /** `chatgpt-conversation-<sanitized time>.pdf`. */
  function Filename(iso: string): string
  {
    FilePrefix + Sanitize(iso) + FileSuffix
  }

  /** The message of a thrown `Error`, or the default message when something else was thrown. */
  function ErrorMessage(m: Option<string>): (r: string)
    ensures m.Some? ==> r == m.value
    ensures m.None? ==> r == DefaultError && r != ""
  {
    match m case Some(s) => s case None => DefaultError
  }

  /** How one attempt ends: retry with the next count, or stop with a final error (None on success). */
  datatype StepEnd = Retry | Stop(error: Option<string>)

  /** One attempt: what it handed to the service, the requests it sent, and how it ended. */
  datatype Step = Step(renders: seq<seq<string>>, requests: seq<Request>, end: StepEnd)

  /** The body of one attempt below the retry limit. */
  function AttemptStep(ids: seq<string>, retryCount: nat, a: Attempt): Step
  {
    if Missing(a.doc, ids) != [] then Step([], [], Retry)
    else
      match Expected(a.doc, ids, a.raster)
      case Failure(m) =>
        Step([ids], [], if retryCount < 2 then Retry else Stop(Some(ErrorMessage(m))))
      case Success(blob) =>
        var req := Request(DownloadType, blob, Filename(a.iso));
        match a.send
        case Ok => Step([ids], [req], Stop(None))
        case Threw(m) => Step([ids], [req], if retryCount < 2 then Retry else Stop(Some(ErrorMessage(m))))
  }

  /** Attempts left at a given count. */
  function Remaining(retryCount: nat): nat
  {
    if retryCount >= MaxRetries then 0 else MaxRetries - retryCount
  }

  /** The attempts from `retryCount` on, each reading `env(retryCount)`. */
  function Attempts(ids: seq<string>, retryCount: nat, env: nat -> Attempt): Run
    decreases Remaining(retryCount)
  {
    if retryCount >= MaxRetries then Run(Some(TooManyRetriesError), [], [])
    else
      var s := AttemptStep(ids, retryCount, env(retryCount));
      match s.end
      case Retry => Attempts(ids, retryCount + 1, env).After(s.renders, s.requests)
      case Stop(e) => Run(e, s.renders, s.requests)
  }

  /** The ids an export works on: the selection, or after an empty selection every id in the document. */
  function Targets(selected: seq<string>, docAtCall: seq<Element>): (r: seq<string>)
    ensures |selected| > 0 ==> r == selected
    ensures |selected| == 0 ==> |r| == |Tagged(docAtCall)|
    ensures |selected| == 0 ==> forall x :: x in r <==> Some(x) in ElementIds(docAtCall)
    ensures r == [] <==> selected == [] && Tagged(docAtCall) == []
  {
    if |selected| > 0 then selected else RawIds(docAtCall)
  }

  // ---------------------------------------------------------------------------
  // Properties of an export run

  /** The rasterizer is reached at most once per remaining attempt, so at most three times in all. */
  lemma {:induction false} AttemptsBounded(ids: seq<string>, retryCount: nat, env: nat -> Attempt)
    ensures |Attempts(ids, retryCount, env).renders| <= Remaining(retryCount)
    ensures |Attempts(ids, retryCount, env).requests| <= |Attempts(ids, retryCount, env).renders|
    decreases Remaining(retryCount)
  {
    if retryCount < MaxRetries {
      AttemptsBounded(ids, retryCount + 1, env);
    }
  }

  /** Every render request is for the whole id list, and only when each id resolved in that attempt's document. */
  lemma {:induction false} RendersOnlyWhenPresent(ids: seq<string>, retryCount: nat, env: nat -> Attempt)
    ensures forall r :: r in Attempts(ids, retryCount, env).renders ==> r == ids
    ensures Attempts(ids, retryCount, env).renders != [] ==>
      exists k :: retryCount <= k < MaxRetries && AllPresent(env(k).doc, ids)
    decreases Remaining(retryCount)
  {
    if retryCount < MaxRetries {
      var a := env(retryCount);
      StepRenders(ids, retryCount, a);
      RendersOnlyWhenPresent(ids, retryCount + 1, env);
      RendersSplit(ids, retryCount, env);
      var s := AttemptStep(ids, retryCount, a);
      var rest := if s.end.Retry? then Attempts(ids, retryCount + 1, env).renders else [];
      forall r | r in s.renders + rest
        ensures r == ids
      {
        if r !in s.renders {
          assert r in rest;
        }
      }
      if s.renders != [] {
        assert AllPresent(env(retryCount).doc, ids);
      }
    }
  }

  /** The renders of a run: this attempt's, then after a retry those of the remaining attempts. */
  lemma RendersSplit(ids: seq<string>, retryCount: nat, env: nat -> Attempt)
    requires retryCount < MaxRetries
    ensures var s := AttemptStep(ids, retryCount, env(retryCount));
      Attempts(ids, retryCount, env).renders
        == s.renders + (if s.end.Retry? then Attempts(ids, retryCount + 1, env).renders else [])
  {
  }

  /**
   * The run ends without error exactly when some attempt had every element
   * present and both the rasterizer and the download message returned.
   */
  lemma {:induction false} SuccessIff(ids: seq<string>, retryCount: nat, env: nat -> Attempt)
    ensures Attempts(ids, retryCount, env).error.None? <==>
      exists k :: retryCount <= k < MaxRetries && Succeeds(ids, env(k))
    decreases Remaining(retryCount)
  {
    if retryCount < MaxRetries {
      var a := env(retryCount);
      StepEnds(ids, retryCount, a);
      if AttemptStep(ids, retryCount, a).end.Retry? {
        SuccessIff(ids, retryCount + 1, env);
        RetryKeepsError(ids, retryCount, env);
        assert (exists k :: retryCount <= k < MaxRetries && Succeeds(ids, env(k)))
          == (exists k :: retryCount + 1 <= k < MaxRetries && Succeeds(ids, env(k))) by {
          if exists k :: retryCount <= k < MaxRetries && Succeeds(ids, env(k)) {
            var k :| retryCount <= k < MaxRetries && Succeeds(ids, env(k));
            assert k != retryCount;
          }
        }
      } else {
        assert Attempts(ids, retryCount, env).error == AttemptStep(ids, retryCount, a).end.error;
        if !Succeeds(ids, a) {
          assert retryCount == MaxRetries - 1;
        }
      }
    }
  }

  /**
   * When every download message is delivered, a run sends exactly one
   * request if it succeeds and none otherwise.
   */
  lemma {:induction false} OneRequestOnSuccess(ids: seq<string>, retryCount: nat, env: nat -> Attempt)
    requires forall k :: env(k).send.Ok?
    ensures |Attempts(ids, retryCount, env).requests| == if Attempts(ids, retryCount, env).error.None? then 1 else 0
    ensures Attempts(ids, retryCount, env).error.None? ==> Attempts(ids, retryCount, env).requests[0].kind == DownloadType
    decreases Remaining(retryCount)
  {
    if retryCount < MaxRetries {
      var a := env(retryCount);
      StepEnds(ids, retryCount, a);
      if AttemptStep(ids, retryCount, a).end.Retry? {
        OneRequestOnSuccess(ids, retryCount + 1, env);
        assert AttemptStep(ids, retryCount, a).requests == [];
        RetryKeepsError(ids, retryCount, env);
      }
    }
  }

  /** The download request an attempt sends once the service rendered its document. */
  function SentOn(ids: seq<string>, a: Attempt): Request
  {
    Request(DownloadType, Blob(Assemble(a.doc, ids), Render), Filename(a.iso))
  }

  /**
   * A run without error: some attempt is the first to succeed, and the last
   * request sent is that attempt's, with the children assembled from its
   * document and the filename from its clock.
   */
  lemma SuccessRequest(ids: seq<string>, retryCount: nat, env: nat -> Attempt) returns (k: nat)
    requires Attempts(ids, retryCount, env).error.None?
    ensures retryCount <= k < MaxRetries && Succeeds(ids, env(k))
    ensures forall j :: retryCount <= j < k ==> !Succeeds(ids, env(j))
    ensures var reqs := Attempts(ids, retryCount, env).requests;
      |reqs| > 0 && reqs[|reqs| - 1] == SentOn(ids, env(k))
  {
    k := FirstSuccess(ids, retryCount, env);
    LastRequest(ids, retryCount, env, k);
  }

  /** The first attempt that succeeds, in a run without error. */
  lemma {:induction false} FirstSuccess(ids: seq<string>, retryCount: nat, env: nat -> Attempt) returns (k: nat)
    requires Attempts(ids, retryCount, env).error.None?
    ensures retryCount <= k < MaxRetries && Succeeds(ids, env(k))
    ensures forall j :: retryCount <= j < k ==> !Succeeds(ids, env(j))
    decreases Remaining(retryCount)
  {
    if retryCount >= MaxRetries {
      assert false;
    }
    var a := env(retryCount);
    StepEnds(ids, retryCount, a);
    if AttemptStep(ids, retryCount, a).end.Retry? {
      RetryKeepsError(ids, retryCount, env);
      k := FirstSuccess(ids, retryCount + 1, env);
      NoSuccessBefore(ids, retryCount, env, k);
    } else {
      k := retryCount;
    }
  }

  lemma NoSuccessBefore(ids: seq<string>, retryCount: nat, env: nat -> Attempt, k: nat)
    requires !Succeeds(ids, env(retryCount))
    requires forall j :: retryCount + 1 <= j < k ==> !Succeeds(ids, env(j))
    ensures forall j :: retryCount <= j < k ==> !Succeeds(ids, env(j))
  {
  }

  /** The last request of a run is the one sent by its first successful attempt. */
  lemma {:induction false} LastRequest(ids: seq<string>, retryCount: nat, env: nat -> Attempt, k: nat)
    requires Attempts(ids, retryCount, env).error.None?
    requires retryCount <= k < MaxRetries && Succeeds(ids, env(k))
    requires forall j :: retryCount <= j < k ==> !Succeeds(ids, env(j))
    ensures var reqs := Attempts(ids, retryCount, env).requests;
      |reqs| > 0 && reqs[|reqs| - 1] == SentOn(ids, env(k))
    decreases Remaining(retryCount)
  {
    var a := env(retryCount);
    var s := AttemptStep(ids, retryCount, a);
    StepEnds(ids, retryCount, a);
    if k == retryCount {
      AttemptStepSpec(ids, retryCount, a);
      MissingIff(a.doc, ids);
      assert s.requests == [SentOn(ids, a)];
      assert Attempts(ids, retryCount, env).requests == s.requests;
    } else {
      assert !Succeeds(ids, a);
      RetryKeepsError(ids, retryCount, env);
      LastRequest(ids, retryCount + 1, env, k);
      var later := Attempts(ids, retryCount + 1, env).requests;
      assert Attempts(ids, retryCount, env).requests == s.requests + later;
      LastOfAppend(s.requests, later);
    }
  }

  lemma LastOfAppend(x: seq<Request>, y: seq<Request>)
    requires |y| > 0
    ensures (x + y)[|x + y| - 1] == y[|y| - 1]
  {
  }

  /**
   * One attempt: the service is reached exactly when every element is
   * present, a request is sent exactly when it also rendered, carrying that
   * document's children and the filename from the attempt's clock, and a
   * missing element always asks for a retry.
   */
  lemma AttemptStepSpec(ids: seq<string>, retryCount: nat, a: Attempt)
    ensures var s := AttemptStep(ids, retryCount, a);
      (s.renders != [] <==> AllPresent(a.doc, ids)) && |s.renders| <= 1
    ensures var s := AttemptStep(ids, retryCount, a);
      s.requests != [] <==> AllPresent(a.doc, ids) && a.raster.Ok?
    ensures var s := AttemptStep(ids, retryCount, a);
      s.requests != [] ==>
        s.requests == [SentOn(ids, a)]
    ensures !AllPresent(a.doc, ids) ==> AttemptStep(ids, retryCount, a).end == Retry
  {
    MissingIff(a.doc, ids);
  }

  /**
   * Where a final error comes from: the retry limit, or the failure of the
   * third attempt with every element present, whose thrown message (or the
   * default one) it carries.
   */
  lemma {:induction false} FailureCauses(ids: seq<string>, retryCount: nat, env: nat -> Attempt)
    ensures var e := Attempts(ids, retryCount, env).error;
      e.Some? ==>
        e == Some(TooManyRetriesError)
        || (retryCount <= 2 && AllPresent(env(2).doc, ids)
            && (if env(2).raster.Threw? then e == Some(ErrorMessage(env(2).raster.message))
                else env(2).send.Threw? && e == Some(ErrorMessage(env(2).send.message))))
    decreases Remaining(retryCount)
  {
    if retryCount < MaxRetries {
      var a := env(retryCount);
      if AttemptStep(ids, retryCount, a).end.Retry? {
        RetryKeepsError(ids, retryCount, env);
        FailureCauses(ids, retryCount + 1, env);
      } else if AttemptStep(ids, retryCount, a).end.error.Some? {
        StepEnds(ids, retryCount, a);
        assert retryCount == 2 && env(2) == a;
        assert Missing(a.doc, ids) == [];
        MissingIff(a.doc, ids);
      }
    }
  }

  /** One attempt renders the whole id list once, and only if every id resolved, or renders nothing. */
  lemma StepRenders(ids: seq<string>, retryCount: nat, a: Attempt)
    ensures var s := AttemptStep(ids, retryCount, a);
      s.renders == [] || (s.renders == [ids] && AllPresent(a.doc, ids))
  {
    MissingIff(a.doc, ids);
  }

  /** After a retry the run's error is that of the remaining attempts, and the retried attempt did not succeed. */
  lemma RetryKeepsError(ids: seq<string>, retryCount: nat, env: nat -> Attempt)
    requires retryCount < MaxRetries && AttemptStep(ids, retryCount, env(retryCount)).end.Retry?
    ensures Attempts(ids, retryCount, env).error == Attempts(ids, retryCount + 1, env).error
  {
  }

  /**
   * One attempt stops without error exactly when it succeeds, sending one
   * request; at the last count it never asks for a retry.
   */
  lemma StepEnds(ids: seq<string>, retryCount: nat, a: Attempt)
    ensures AttemptStep(ids, retryCount, a).end == Stop(None) <==> Succeeds(ids, a)
    ensures Succeeds(ids, a) ==>
      |AttemptStep(ids, retryCount, a).requests| == 1 && AttemptStep(ids, retryCount, a).requests[0].kind == DownloadType
    ensures AttemptStep(ids, retryCount, a).end.Stop? && !Succeeds(ids, a) ==> retryCount >= 2
    ensures retryCount >= 2 && AllPresent(a.doc, ids) ==> AttemptStep(ids, retryCount, a).end.Stop?
  {
    MissingIff(a.doc, ids);
  }

  predicate Succeeds(ids: seq<string>, a: Attempt)
  {
    Missing(a.doc, ids) == [] && a.raster.Ok? && a.send.Ok?
  }

  /** When nothing ever fails, exactly one download request is sent, with the expected filename and children. */
  lemma FirstAttemptSucceeds(ids: seq<string>, env: nat -> Attempt)
    requires Succeeds(ids, env(0))
    ensures Attempts(ids, 0, env) == Run(None, [ids],
      [Request(DownloadType, Blob(Assemble(env(0).doc, ids), Render), Filename(env(0).iso))])
  {
  }

  /** An id that never appears fails with the retry error after three checks, and nothing is rendered. */
  lemma {:induction false} NeverPresentFails(ids: seq<string>, retryCount: nat, env: nat -> Attempt)
    requires forall k :: retryCount <= k < MaxRetries ==> Missing(env(k).doc, ids) != []
    ensures Attempts(ids, retryCount, env) == Run(Some(TooManyRetriesError), [], [])
    decreases Remaining(retryCount)
  {
    if retryCount < MaxRetries {
      NeverPresentFails(ids, retryCount + 1, env);
    }
  }

  /**
   * The two retry budgets are one counter with two limits: a rasterizer
   * failure at the third attempt surfaces its own message, while a missing
   * element there ends with the retry error.
   */
  lemma SharedCounterLimits(ids: seq<string>, env: nat -> Attempt, m: string)
    requires Missing(env(2).doc, ids) == [] && env(2).raster == Threw(Some(m))
    ensures Attempts(ids, 2, env) == Run(Some(m), [ids], [])
  {
  }

  /**
   * The filename keeps its prefix and suffix, and its stem is the sanitized
   * time, so it never contains ':' or '.'.
   */
  lemma FilenameShape(iso: string)
    ensures |Filename(iso)| == |FilePrefix| + |iso| + |FileSuffix|
    ensures Filename(iso)[..|FilePrefix|] == FilePrefix
    ensures Filename(iso)[|FilePrefix| + |iso|..] == FileSuffix
    ensures Filename(iso)[|FilePrefix|..|FilePrefix| + |iso|] == Sanitize(iso)
    ensures forall i :: |FilePrefix| <= i < |FilePrefix| + |iso| ==> Filename(iso)[i] != ':' && Filename(iso)[i] != '.'
  {
    Stem(FilePrefix, iso, FileSuffix);
  }

  /** The same facts for any prefix and suffix around a sanitized string. */
  lemma Stem(prefix: string, iso: string, suffix: string)
    ensures (prefix + Sanitize(iso) + suffix)[..|prefix|] == prefix
    ensures (prefix + Sanitize(iso) + suffix)[|prefix| + |iso|..] == suffix
    ensures (prefix + Sanitize(iso) + suffix)[|prefix|..|prefix| + |iso|] == Sanitize(iso)
    ensures forall i :: |prefix| <= i < |prefix| + |iso| ==>
      (prefix + Sanitize(iso) + suffix)[i] != ':' && (prefix + Sanitize(iso) + suffix)[i] != '.'
  {
    var f, m := prefix + Sanitize(iso) + suffix, Sanitize(iso);
    forall i | |prefix| <= i < |prefix| + |iso| ensures f[i] != ':' && f[i] != '.' {
      assert f[i] == m[i - |prefix|];
    }
  }

  // ---------------------------------------------------------------------------
  // The hook's state

  class Exporter {
    var isGenerating: bool
    var error: Option<string>
    const service: Service
    const body: Body

    constructor (body: Body)
      ensures !isGenerating && error.None? && this.body == body
      ensures service.options == PdfOptions(Light, 12, Margins(20, 20, 20, 20))
    {
      isGenerating := false;
      error := None;
      this.body := body;
      service := new Service(PdfOptions(Light, 12, Margins(20, 20, 20, 20)));
    }

    /**
     * `generatePDF(selectedIds, retryCount)`. The guard is read once, at the
     * call: the retries of one export read the value captured when the call
     * began, so they are never stopped by it.
     */
    method GeneratePdf(selectedIds: seq<string>, retryCount: nat, docAtCall: seq<Element>, env: nat -> Attempt)
      returns (renders: seq<seq<string>>, requests: seq<Request>)
      requires body.Valid()
      modifies this, body
      ensures body.Valid() && body.nodes == old(body.nodes)
      ensures old(isGenerating) ==>
        isGenerating && error == old(error) && renders == [] && requests == []
      ensures !old(isGenerating) && Targets(selectedIds, docAtCall) == [] ==>
        !isGenerating && error == Some(NotFoundError) && renders == [] && requests == []
      ensures !old(isGenerating) && Targets(selectedIds, docAtCall) != [] ==>
        var run := Attempts(Targets(selectedIds, docAtCall), retryCount, env);
        !isGenerating && error == run.error && renders == run.renders && requests == run.requests
    {
      renders, requests := [], [];
      if isGenerating {
        return;
      }
      var ids := selectedIds;
      if |ids| == 0 {
        ids := RawIds(docAtCall);
        if |ids| == 0 {
          error := Some(NotFoundError);
          return;
        }
      }
      renders, requests := RunAttempts(ids, retryCount, env);
    }

    /**
     * The attempts from `retryCount` on. A retry is the hook returning its
     * own call with the next count from inside its `try`, without awaiting
     * it; in the source the `finally` of a level therefore clears the
     * generating flag as soon as the retried call reaches its first `await`,
     * while that call is still running. The model runs the attempts one after
     * the other and states only the flag once the last of them is over.
     */
    method RunAttempts(ids: seq<string>, retryCount: nat, env: nat -> Attempt)
      returns (renders: seq<seq<string>>, requests: seq<Request>)
      requires body.Valid()
      modifies this, body
      ensures body.Valid() && body.nodes == old(body.nodes)
      ensures var run := Attempts(ids, retryCount, env);
        error == run.error && renders == run.renders && requests == run.requests
      ensures isGenerating == (old(isGenerating) && retryCount >= MaxRetries)
      decreases Remaining(retryCount)
    {
      if retryCount >= MaxRetries {
        error := Some(TooManyRetriesError);
        return [], [];
      }
      isGenerating := true;
      error := None;
      var step := RunAttempt(ids, retryCount, env(retryCount));
      match step.end {
        case Retry =>
          var laterRenders, laterRequests := RunAttempts(ids, retryCount + 1, env);
          renders, requests := step.renders + laterRenders, step.requests + laterRequests;
        case Stop(e) =>
          error := e;
          renders, requests := step.renders, step.requests;
      }
      isGenerating := false;
    }

    /**
     * The body of `generatePDF` after the guards: check that every element
     * is there, have the service render them, name the file and send the
     * download message; any failure after the check is retried below the
     * second retry.
     */
    method RunAttempt(ids: seq<string>, retryCount: nat, a: Attempt) returns (step: Step)
      requires body.Valid()
      modifies body
      ensures body.Valid() && body.nodes == old(body.nodes)
      ensures step == AttemptStep(ids, retryCount, a)
    {
      var missing := Missing(a.doc, ids);
      if |missing| > 0 {
        return Step([], [], Retry);
      }
      var result := service.GeneratePdf(body, a.doc, ids, a.raster);
      var failure: Option<string>;
      var sent: seq<Request> := [];
      match result {
        case Failure(m) =>
          failure := Some(ErrorMessage(m));
        case Success(blob) =>
          var filename := Filename(a.iso);
          sent := [Request(DownloadType, blob, filename)];
          match a.send {
            case Ok => failure := None;
            case Threw(m) => failure := Some(ErrorMessage(m));
          }
      }
      if failure.None? {
        step := Step([ids], sent, Stop(None));
      } else if retryCount < 2 {
        step := Step([ids], sent, Retry);
      } else {
        step := Step([ids], sent, Stop(failure));
      }
    }
  }
}
