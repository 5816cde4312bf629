/** The auto-mosaic adapter (`core/auto_mosaic.py`): it runs an external
    mosaic script on each image of a pack and re-embeds the image's metadata
    into the output. The script is a subprocess, so each run is supplied as
    an outcome. */
module AutoMosaic {
  import opened Base
  import opened Json
  import opened Listing
  import opened Metadata

  /** Which of the external files exist, and whether the workflow file parses
      as JSON. */
  datatype Setup = Setup(externalDir: bool, script: bool, workflow: bool, workflowParses: bool)

  datatype SetupResult = Valid | MissingExternal | MissingScript | MissingWorkflow | InvalidWorkflow

  /** `validate_setup`: the checks run in this order, and the first one that
      fails decides the result. */
  function ValidateSetup(s: Setup): (r: SetupResult)
    ensures r == Valid <==> s.externalDir && s.script && s.workflow && s.workflowParses
    ensures r == MissingExternal <==> !s.externalDir
    ensures r == MissingScript <==> s.externalDir && !s.script
    ensures r == MissingWorkflow <==> s.externalDir && s.script && !s.workflow
  {
    if !s.externalDir then MissingExternal
    else if !s.script then MissingScript
    else if !s.workflow then MissingWorkflow
    else if !s.workflowParses then InvalidWorkflow
    else Valid
  }

  /** How one run of the mosaic script ended: it exited with a return code,
      leaving an output file or not; it hit the timeout; or starting or
      waiting for it raised. */
  datatype RunOutcome = Completed(returnCode: int, outputExists: bool) | TimedOut | Crashed

  /** A run that counts as a success. */
  predicate Succeeds(o: RunOutcome) {
    o.Completed? && o.returnCode == 0 && o.outputExists
  }

  /** What happened to the metadata after a run. */
  datatype EmbedStatus = NotAttempted | Embedded(action: EmbedAction) | EmbedFailed(error: MetadataError)

  datatype ImageRun = ImageRun(ran: bool, ok: bool, embed: EmbedStatus)

  /** `process_image`: nothing runs when the input is missing. A run succeeds
      with return code 0 and an output file. After a success the metadata is
      embedded when asked for and non-empty, and a failing embed is only
      reported. */
  function ProcessImage(inputExists: bool, outcome: RunOutcome, preserve: bool, metadata: Option<Json>,
                        outputName: string, codec: JsonCodec): (r: ImageRun)
    ensures !inputExists ==> !r.ran && !r.ok && r.embed == NotAttempted
    ensures r.ok <==> inputExists && Succeeds(outcome)
    ensures r.embed != NotAttempted <==> r.ok && preserve && metadata.Some? && Truthy(metadata.value)
    ensures r.embed.Embedded? ==> Embed(outputName, metadata.value, codec) == Success(r.embed.action)
    ensures r.embed.EmbedFailed? ==> Embed(outputName, metadata.value, codec) == Failure(r.embed.error)
  {
    if !inputExists then ImageRun(false, false, NotAttempted)
    else if !Succeeds(outcome) then ImageRun(true, false, NotAttempted)
    else if preserve && metadata.Some? && Truthy(metadata.value) then
      match Embed(outputName, metadata.value, codec)
      case Success(a) => ImageRun(true, true, Embedded(a))
      case Failure(e) => ImageRun(true, true, EmbedFailed(e))
    else ImageRun(true, true, NotAttempted)
  }

  /** The metadata never decides success: two calls that differ only in what
      they embed agree on the result. */
  lemma EmbedDoesNotChangeResult(inputExists: bool, outcome: RunOutcome, p1: bool, m1: Option<Json>,
                                 p2: bool, m2: Option<Json>, outputName: string, codec: JsonCodec)
    ensures ProcessImage(inputExists, outcome, p1, m1, outputName, codec).ok
            == ProcessImage(inputExists, outcome, p2, m2, outputName, codec).ok
  {
  }

  /** After the runs fail, the fallback copies the input to the output; the
      copy's success alone decides the result. */
  function CopyFallback(copyOk: bool, preserve: bool, metadata: Option<Json>, outputName: string,
                        codec: JsonCodec): (r: ImageRun)
    ensures r.ok == copyOk
    ensures r.embed != NotAttempted <==> copyOk && preserve && metadata.Some? && Truthy(metadata.value)
  {
    if !copyOk then ImageRun(false, false, NotAttempted)
    else if preserve && metadata.Some? && Truthy(metadata.value) then
      match Embed(outputName, metadata.value, codec)
      case Success(a) => ImageRun(false, true, Embedded(a))
      case Failure(e) => ImageRun(false, true, EmbedFailed(e))
    else ImageRun(false, true, NotAttempted)
  }

  /** `process_image_with_retry`: at most `maxRetries` runs, the k-th (from 0)
      ending as `outcome(k)`; the first success ends the loop. When every run
      fails, the original is copied instead and the copy decides the result. */
  method ProcessImageWithRetry(inputExists: bool, outcome: nat -> RunOutcome, maxRetries: int, copyOk: bool,
                               preserve: bool, metadata: Option<Json>, outputName: string, codec: JsonCodec)
    returns (ok: bool, attempts: nat, fellBack: bool)
    ensures !inputExists ==> !ok && attempts == 0 && !fellBack
    ensures attempts <= Max(0, maxRetries)
    ensures fellBack <==> inputExists && forall k: nat :: k < maxRetries ==> !Succeeds(outcome(k))
    ensures fellBack ==> ok == copyOk && attempts == Max(0, maxRetries)
    ensures inputExists && !fellBack ==>
              ok && attempts >= 1 && Succeeds(outcome(attempts - 1))
              && forall k: nat :: k < attempts - 1 ==> !Succeeds(outcome(k))
  {
    if !inputExists {
      return false, 0, false;
    }
    attempts := 0;
    while attempts < maxRetries
      invariant attempts <= Max(0, maxRetries)
      invariant forall k: nat :: k < attempts ==> !Succeeds(outcome(k))
      decreases maxRetries - attempts
    {
      var run := ProcessImage(true, outcome(attempts), preserve, metadata, outputName, codec);
      if run.ok {
        return true, attempts + 1, false;
      }
      attempts := attempts + 1;
    }
    var copy := CopyFallback(copyOk, preserve, metadata, outputName, codec);
    return copy.ok, attempts, true;
  }

  /** The number of runs that succeed. */
  function CountSucceeded(files: seq<Entry>, outcome: string -> RunOutcome): (n: nat)
    ensures n <= |files|
    ensures n == |files| <==> forall i :: 0 <= i < |files| ==> Succeeds(outcome(files[i].name))
    ensures n == 0 <==> forall i :: 0 <= i < |files| ==> !Succeeds(outcome(files[i].name))
  {
    if |files| == 0 then 0
    else
      var last := |files| - 1;
      CountSucceeded(files[..last], outcome) + (if Succeeds(outcome(files[last].name)) then 1 else 0)
  }

  /** The metadata a pack's image is given: its entry in metadata.json, passed
      only when non-empty. A metadata.json that does not parse counts as
      empty; one that parses to a non-object has no `.get`, so it is never
      asked. */
  function ImageMetadata(file: JsonFile, name: string): (m: Option<Json>)
    requires !file.NonObject?
    ensures m.Some? ==> Truthy(m.value) && file.Loaded? && Lookup(file.entries, name) == m
    ensures file.Loaded? && name in Keys(file.entries) && Truthy(Lookup(file.entries, name).value) ==> m.Some?
  {
    if file.Loaded? then
      var v := Lookup(file.entries, name).GetOr(JObj(map[]));
      if Truthy(v) then Some(v) else None
    else None
  }

  /** What `process_pack` did: returned, with the counts of its loop, or
      raised at the first image because metadata.json holds no dictionary. */
  datatype PackResult = PackResult(ok: bool, processed: nat, failed: nat) | MetadataRaised

  /** `process_pack`: the setup and the `original_images` folder must exist;
      then each `*.png` of that folder gets one `process_image` (no retries),
      and the pack succeeds whatever the individual runs did. A metadata.json
      that parses to a non-object is kept, and its missing `.get` raises out
      of the loop at the first image. */
  method ProcessPack(setup: Setup, originals: Option<seq<Entry>>, metadataFile: JsonFile,
                     outcome: string -> RunOutcome, codec: JsonCodec)
    returns (r: PackResult)
    ensures r.MetadataRaised? <==> ValidateSetup(setup) == Valid && originals.Some? && metadataFile.NonObject?
                                   && Glob(originals.value, ".png") != []
    ensures r.PackResult? && !r.ok <==> ValidateSetup(setup) != Valid || originals.None?
    ensures r.PackResult? && !r.ok ==> r.processed == 0 && r.failed == 0
    ensures r.PackResult? && r.ok ==> r.processed + r.failed == |Glob(originals.value, ".png")|
    ensures r.PackResult? && r.ok ==> r.processed == CountSucceeded(Glob(originals.value, ".png"), outcome)
  {
    if ValidateSetup(setup) != Valid || originals.None? {
      return PackResult(false, 0, 0);
    }
    var pngs := Glob(originals.value, ".png");
    if pngs == [] {
      return PackResult(true, 0, 0);
    }
    if metadataFile.NonObject? {
      return MetadataRaised;
    }
    var processed, failed := TallyRuns(pngs, metadataFile, outcome, codec);
    return PackResult(true, processed, failed);
  }

  /** The loop of `process_pack`: one `process_image` per file, counting
      successes and failures. */
  method TallyRuns(pngs: seq<Entry>, metadataFile: JsonFile, outcome: string -> RunOutcome, codec: JsonCodec)
    returns (processed: nat, failed: nat)
    requires !metadataFile.NonObject?
    ensures processed + failed == |pngs|
    ensures processed == CountSucceeded(pngs, outcome)
  {
    processed, failed := 0, 0;
    var i := 0;
    while i < |pngs|
      invariant 0 <= i <= |pngs|
      invariant processed + failed == i
      invariant processed == CountSucceeded(pngs[..i], outcome)
    {
      var name := pngs[i].name;
      var run := ProcessImage(true, outcome(name), true, ImageMetadata(metadataFile, name), name, codec);
      assert pngs[..i + 1][..i] == pngs[..i];
      if run.ok {
        processed := processed + 1;
      } else {
        failed := failed + 1;
      }
      i := i + 1;
    }
    assert pngs[..i] == pngs;
  }
}
