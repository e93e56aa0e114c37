/** `models/cache.ts`: which model files still have to be fetched, the
    progress messages of a download run, and the module-level
    `anyDownloading` flag that keeps two runs from overlapping. The cache
    lookup, the download and the save are parameters: the keys the cache
    lists, and the error (if any) that the download of one model raises. */
module ModelCache {
  import opened Wrappers
  import opened JsNumber

  const InpaintModelDir := "https://huggingface.co/Carve/LaMa-ONNX/resolve/c3c0c9e"
  const DepthModelDir := "https://huggingface.co/onnx-community/depth-anything-v2-base/resolve/d13a228/onnx"
  const InpaintModelUrl := InpaintModelDir + "/lama_fp32.onnx?download=true"
  const DepthModelUrl := DepthModelDir + "/model_fp16.onnx?download=true"

  /** `allModels`, in download order. */
  function AllModels(): seq<string> {
    [DepthModelUrl, InpaintModelUrl]
  }

  const AlreadyDownloading := "Downloading models is already in progress"
  const Completed := "Downloading models completed"

  /** `urls.every(url => keys.includes(url))` */
  function AllIn(urls: seq<string>, keys: seq<string>): (r: bool)
    ensures r <==> forall k :: 0 <= k < |urls| ==> urls[k] in keys
  {
    if |urls| == 0 then true
    else
      assert forall k :: 1 <= k < |urls| ==> urls[k] == urls[1..][k - 1];
      urls[0] in keys && AllIn(urls[1..], keys)
  }

  /** `checkAllModelsCached`, the cache keys given. */
  function CheckAllModelsCached(keys: seq<string>): (r: bool)
    ensures r <==> DepthModelUrl in keys && InpaintModelUrl in keys
  {
    var urls := AllModels();
    assert urls[0] == DepthModelUrl && urls[1] == InpaintModelUrl;
    AllIn(urls, keys)
  }

  /** `urls.filter(url => !keys.includes(url))` */
  function NotIn(urls: seq<string>, keys: seq<string>): (r: seq<string>)
    ensures |r| <= |urls|
    ensures forall u :: u in r <==> u in urls && u !in keys
  {
    if |urls| == 0 then []
    else
      var rest := NotIn(urls[1..], keys);
      assert urls == [urls[0]] + urls[1..];
      if urls[0] in keys then rest else [urls[0]] + rest
  }

  /** The models a download run fetches. */
  function MissingModels(keys: seq<string>): (r: seq<string>)
    ensures forall u :: u in r <==> u in AllModels() && u !in keys
  {
    NotIn(AllModels(), keys)
  }

  /** The missing models keep the order of `allModels`: the depth model
      comes before the inpainting model. */
  lemma MissingInOrder(keys: seq<string>)
    ensures MissingModels(keys) ==
              (if DepthModelUrl in keys then [] else [DepthModelUrl]) +
              (if InpaintModelUrl in keys then [] else [InpaintModelUrl])
  {
    var urls := AllModels();
    var tail := urls[1..];
    assert tail == [InpaintModelUrl] && tail[1..] == [];
    assert NotIn(tail[1..], keys) == [];
    assert NotIn(tail, keys) == if InpaintModelUrl in keys then [] else [InpaintModelUrl];
  }

  /** Everything is cached exactly when nothing is missing. */
  lemma CachedIffNothingMissing(keys: seq<string>)
    ensures CheckAllModelsCached(keys) <==> MissingModels(keys) == []
  {
    MissingInOrder(keys);
  }

  // ---------------------------------------------------------------- file names

  /** The text before the first `?`: for these URLs, everything up to the
      end of the path. */
  function BeforeQuery(url: string): (r: string)
    ensures '?' !in r
    ensures r <= url
    ensures |r| < |url| ==> url[|r|] == '?'
  {
    if |url| == 0 || url[0] == '?' then ""
    else
      assert url == [url[0]] + url[1..];
      [url[0]] + BeforeQuery(url[1..])
  }

  /** `pathname.split("/").pop()`: the text after the last `/`. */
  function LastSegment(path: string): (r: string)
    ensures '/' !in r
    ensures |r| <= |path| && path[|path| - |r|..] == r
    ensures |r| < |path| ==> path[|path| - |r| - 1] == '/'
  {
    if |path| == 0 || path[|path| - 1] == '/' then ""
    else
      var init := path[..|path| - 1];
      var rest := LastSegment(init);
      assert path == init + [path[|path| - 1]];
      SegmentSnoc(init, path[|path| - 1], rest);
      rest + [path[|path| - 1]]
  }

  /** A character other than `/` extends the last segment. */
  lemma SegmentSnoc(init: string, c: char, rest: string)
    requires c != '/' && '/' !in rest
    requires |rest| <= |init| && init[|init| - |rest|..] == rest
    requires |rest| < |init| ==> init[|init| - |rest| - 1] == '/'
    ensures var path, r := init + [c], rest + [c];
            && '/' !in r && |r| <= |path| && path[|path| - |r|..] == r
            && (|r| < |path| ==> path[|path| - |r| - 1] == '/')
  {
    var path := init + [c];
    assert path[|path| - |rest| - 1..] == init[|init| - |rest|..] + [c];
  }

  /** `getModelFileName`: the last segment of the URL's path. */
  function GetModelFileName(url: string): (name: string)
    ensures '/' !in name && '?' !in name
    ensures var path := BeforeQuery(url);
            && |name| <= |path| && path[|path| - |name|..] == name
            && (|name| < |path| ==> path[|path| - |name| - 1] == '/')
  {
    LastSegment(BeforeQuery(url))
  }

  lemma BeforeQueryOf(path: string, query: string)
    requires '?' !in path
    ensures BeforeQuery(path + "?" + query) == path
  {
    if |path| > 0 {
      assert (path + "?" + query)[1..] == path[1..] + "?" + query;
      BeforeQueryOf(path[1..], query);
    } else {
      assert (path + "?" + query)[0] == '?';
    }
  }

  lemma {:induction false} LastSegmentOf(dir: string, name: string)
    requires '/' !in name
    ensures LastSegment(dir + "/" + name) == name
  {
    if |name| == 0 {
      assert (dir + "/" + name) == dir + "/";
    } else {
      var path := dir + "/" + name;
      var init := name[..|name| - 1];
      assert path[..|path| - 1] == dir + "/" + init;
      LastSegmentOf(dir, init);
      assert name == init + [name[|name| - 1]];
    }
  }

  /** Both model URLs have the shape `<dir>/<name>?download=true`; for
      such a URL the file name is `name`. */
  lemma ModelFileName(dir: string, name: string)
    requires '?' !in dir && '?' !in name && '/' !in name
    ensures GetModelFileName(dir + "/" + name + "?download=true") == name
  {
    var query := "download=true";
    assert dir + "/" + name + "?download=true" == (dir + "/" + name) + "?" + query;
    BeforeQueryOf(dir + "/" + name, query);
    LastSegmentOf(dir, name);
  }

  // ---------------------------------------------------------------- download run

  /** A progress report; `Text` renders it as the message passed to the
      `progress` callback. */
  datatype Progress =
    | Downloading(url: string, position: nat, count: nat)
    | Saving(url: string)
    | Done

  function Text(p: Progress): string {
    match p
    case Downloading(url, position, count) =>
      "Downloading " + GetModelFileName(url) + " (" + Decimal(position) + "/" + Decimal(count) + ")"
    case Saving(url) => "Saving " + GetModelFileName(url) + " to indexedDB..."
    case Done => Completed
  }

  /** What a call of `downloadAllModels` leaves behind: the flag, how the
      call ended, the progress messages it reported (percentages left out)
      and the models it saved, in order. */
  datatype DownloadRun = DownloadRun(anyDownloading: bool, outcome: Outcome, messages: seq<Progress>, saved: seq<string>)

  /** The loop over the missing models from position `index` on; `failure`
      holds the position and message of a download that raises, if any. */
  function DownloadFrom(missing: seq<string>, index: nat, failure: Option<(nat, string)>): (r: DownloadRun)
    requires index <= |missing|
    ensures !r.anyDownloading
    ensures r.outcome.Pass? <==> failure.None? || failure.value.0 < index || failure.value.0 >= |missing|
    ensures r.outcome.Fail? ==> r.outcome.message == failure.value.1 && r.saved == missing[index..failure.value.0]
    ensures r.outcome.Pass? ==> r.saved == missing[index..]
    decreases |missing| - index
  {
    if index == |missing| then DownloadRun(false, Pass, [Done], [])
    else
      var url := missing[index];
      var announce := Downloading(url, index + 1, |missing|);
      if failure.Some? && failure.value.0 == index then
        DownloadRun(false, Fail(failure.value.1), [announce], [])
      else
        var rest := DownloadFrom(missing, index + 1, failure);
        assert missing[index..] == [url] + missing[index + 1..];
        assert rest.outcome.Fail? ==> missing[index..failure.value.0] == [url] + missing[index + 1..failure.value.0];
        DownloadRun(false, rest.outcome, [announce, Saving(url)] + rest.messages, [url] + rest.saved)
  }

  /** `downloadAllModels`, started with the flag `anyDownloading` and the
      cache listing `keys` (or the error listing it raises). A call while a
      download runs fails at once and leaves the flag set; any other call
      clears the flag when it ends, normally or by an error, and saves the
      missing models in order, up to the first failed download. */
  function DownloadAllModels(anyDownloading: bool, keys: Result<seq<string>>, failure: Option<(nat, string)>): (r: DownloadRun)
    ensures anyDownloading ==> r == DownloadRun(true, Fail(AlreadyDownloading), [], [])
    ensures !anyDownloading ==> !r.anyDownloading
    ensures !anyDownloading && keys.Err? ==> r.outcome == Fail(keys.message) && r.saved == []
    ensures !anyDownloading && keys.Ok? && r.outcome.Pass? ==> r.saved == MissingModels(keys.value)
    ensures !anyDownloading && keys.Ok? ==> forall k :: 0 <= k < |r.saved| ==> r.saved[k] !in keys.value
    ensures !anyDownloading && keys.Ok? && failure.None? ==> r.outcome.Pass?
  {
    if anyDownloading then DownloadRun(true, Fail(AlreadyDownloading), [], [])
    else
      match keys
      case Err(message) => DownloadRun(false, Fail(message), [], [])
      case Ok(cached) =>
        var missing := MissingModels(cached);
        var run := DownloadFrom(missing, 0, failure);
        assert forall k :: 0 <= k < |run.saved| ==> run.saved[k] in missing;
        run
  }

  /** The messages a run that saves every model from position `index` on
      reports: for each such model, its position out of the number missing,
      then its save; then the completion message. */
  ghost predicate ReportsAll(missing: seq<string>, index: nat, messages: seq<Progress>)
    requires index <= |missing|
  {
    && |messages| == 2 * (|missing| - index) + 1
    && messages[|messages| - 1] == Done
    && forall k :: 0 <= k < |missing| - index ==>
         messages[2 * k] == Downloading(missing[index + k], index + k + 1, |missing|) &&
         messages[2 * k + 1] == Saving(missing[index + k])
  }

  /** The progress messages of a run in which no download fails. */
  lemma {:induction false} DownloadMessages(missing: seq<string>, index: nat)
    requires index <= |missing|
    ensures ReportsAll(missing, index, DownloadFrom(missing, index, None).messages)
    decreases |missing| - index
  {
    if index < |missing| {
      DownloadMessages(missing, index + 1);
      MessagesStep(missing, index);
      ReportsCons(missing, index, DownloadFrom(missing, index + 1, None).messages);
    }
  }

  /** A run that saves the model at `index` reports its download and its
      save before the rest of the run. */
  lemma MessagesStep(missing: seq<string>, index: nat)
    requires index < |missing|
    ensures DownloadFrom(missing, index, None).messages
         == [Downloading(missing[index], index + 1, |missing|), Saving(missing[index])]
            + DownloadFrom(missing, index + 1, None).messages
  {
  }

  lemma ReportsCons(missing: seq<string>, index: nat, rest: seq<Progress>)
    requires index < |missing| && ReportsAll(missing, index + 1, rest)
    ensures ReportsAll(missing, index, [Downloading(missing[index], index + 1, |missing|), Saving(missing[index])] + rest)
  {
    var messages := [Downloading(missing[index], index + 1, |missing|), Saving(missing[index])] + rest;
    forall k | 0 <= k < |missing| - index
      ensures messages[2 * k] == Downloading(missing[index + k], index + k + 1, |missing|)
      ensures messages[2 * k + 1] == Saving(missing[index + k])
    {
      if k > 0 {
        var j := k - 1;
        assert messages[2 * k] == rest[2 * j];
        assert messages[2 * k + 1] == rest[2 * j + 1];
        assert index + k == (index + 1) + j;
      }
    }
  }

  // ---------------------------------------------------------------- interleaved calls

  /** The two halves of a call of `downloadAllModels` that other calls can
      fall between: `Start` is the synchronous check and set of the flag,
      `Settle` is the `finally` of a call that got past that check, after
      its awaits. */
  datatype Event = Start | Settle

  /** The module state over interleaved calls: the flag, how many accepted
      calls have not settled yet, and how many calls were accepted and
      rejected so far. */
  datatype Machine = Machine(anyDownloading: bool, inFlight: nat, accepted: nat, rejected: nat)

  const Initial := Machine(false, 0, 0, 0)

  /** One event. A `Start` while the flag is set is rejected and changes
      nothing else; any other `Start` sets the flag and puts a run in
      flight. A `Settle` ends a run in flight and clears the flag; with no
      run in flight there is nothing to settle. */
  function Step(m: Machine, e: Event): (r: Option<Machine>)
    ensures e == Start ==> r.Some? && r.value.anyDownloading
    ensures e == Start ==> (r.value.rejected == m.rejected + 1 <==> m.anyDownloading)
    ensures e == Start ==> (r.value.inFlight == m.inFlight + 1 <==> !m.anyDownloading)
    ensures e == Settle ==> (r.Some? <==> m.inFlight > 0)
    ensures e == Settle && r.Some? ==> !r.value.anyDownloading && r.value.inFlight < m.inFlight
  {
    match e
    case Start =>
      if m.anyDownloading then Some(m.(rejected := m.rejected + 1))
      else Some(m.(anyDownloading := true, inFlight := m.inFlight + 1, accepted := m.accepted + 1))
    case Settle =>
      if m.inFlight == 0 then None
      else Some(m.(anyDownloading := false, inFlight := m.inFlight - 1))
  }

  /** The state after a sequence of events from the initial state; `None`
      when some `Settle` has no run to end. */
  function Replay(trace: seq<Event>): (r: Option<Machine>)
    ensures r.Some? ==> r.value.accepted + r.value.rejected == |trace| - Settles(trace)
  {
    if |trace| == 0 then Some(Initial)
    else
      var prior := trace[..|trace| - 1];
      var last := trace[|trace| - 1];
      assert trace == prior + [last];
      SettlesSnoc(prior, last);
      match Replay(prior)
      case None => None
      case Some(m) => Step(m, last)
  }

  /** The number of `Settle` events in a trace. */
  function Settles(trace: seq<Event>): (n: nat)
    ensures n <= |trace|
  {
    if |trace| == 0 then 0
    else (if trace[0] == Settle then 1 else 0) + Settles(trace[1..])
  }

  lemma {:induction false} SettlesSnoc(trace: seq<Event>, e: Event)
    ensures Settles(trace + [e]) == Settles(trace) + (if e == Settle then 1 else 0)
  {
    if |trace| > 0 {
      assert (trace + [e])[1..] == trace[1..] + [e];
      SettlesSnoc(trace[1..], e);
    }
  }

  /** The flag tells the truth: it is set exactly when a run is in flight,
      and at most one run is ever in flight, whatever the interleaving. */
  ghost predicate FlagTellsTruth(m: Machine) {
    m.inFlight <= 1 && (m.anyDownloading <==> m.inFlight == 1)
  }

  lemma {:induction false} ReplayInvariant(trace: seq<Event>)
    requires Replay(trace).Some?
    ensures FlagTellsTruth(Replay(trace).value)
  {
    if |trace| > 0 {
      var prior := trace[..|trace| - 1];
      ReplayInvariant(prior);
    }
  }

  lemma ReplaySnoc(trace: seq<Event>, e: Event)
    ensures Replay(trace + [e]) == if Replay(trace).None? then None else Step(Replay(trace).value, e)
  {
    assert (trace + [e])[..|trace|] == trace;
  }

  /** A call that starts while another one is between its start and its
      settling is rejected and leaves everything else as it was. */
  lemma OverlapRejected(trace: seq<Event>)
    requires Replay(trace).Some? && Replay(trace).value.inFlight > 0
    ensures var m := Replay(trace).value;
            Replay(trace + [Start]) == Some(m.(rejected := m.rejected + 1))
  {
    ReplayInvariant(trace);
    ReplaySnoc(trace, Start);
  }

  /** A call that starts when every earlier accepted call has settled is
      accepted, and so is never turned away by a stale flag. */
  lemma IdleAccepted(trace: seq<Event>)
    requires Replay(trace).Some? && Replay(trace).value.inFlight == 0
    ensures var m := Replay(trace).value;
            Replay(trace + [Start]) == Some(m.(anyDownloading := true, inFlight := 1, accepted := m.accepted + 1))
  {
    ReplayInvariant(trace);
    ReplaySnoc(trace, Start);
  }
}
