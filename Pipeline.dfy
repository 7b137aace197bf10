/** The pipeline orchestrator (`process_images`) and the search client's
    request/response handling (`fetch_images_from_pixabay`).

    The network is not modelled: the search endpoint is an oracle from a
    query to a response, and downloading, resizing, cropping and saving one
    image is an oracle that says whether it produced the file. Besides the
    result mapping, the orchestrator's observable effects are recorded: one
    `Attempt` per call of the image transformer (in call order) and the
    number of rate-limit delays.

    The two loops are specified as folds whose step is a parameter: the
    inner fold over candidates takes what trying a candidate gives, the
    outer fold over descriptions takes what processing a description gives.
    The properties of the loops are proved for every step with the relevant
    properties, and the program's own steps are shown to have them. */
module Pipeline {
  import opened Text
  import opened Filename
  import opened Inputs

  /** The directory every image is saved under. */
  const ImagesDir: string := "images"

  /** The query parameters sent to the search endpoint (the API key is
      configuration and is left out). */
  datatype SearchQuery = SearchQuery(q: string, imageType: string, perPage: int)

  /** One record of the `hits` list. */
  datatype Hit = Hit(webformatURL: string, id: int)

  /** The search endpoint's answer: the HTTP status and, for a JSON body,
      the `hits` field when it is present. */
  datatype SearchResponse = SearchResponse(status: int, hits: Option<seq<Hit>>)

  /** A candidate image: its download URL and its Pixabay identifier. */
  datatype Candidate = Candidate(url: string, id: int)

  /** The run's surroundings: the search endpoint, the image transformer
      (given URL, target size and save path, whether it saved the file),
      the target size and the requested number of images per description. */
  datatype Env = Env(
    search: SearchQuery -> SearchResponse,
    transform: (string, seq<int>, string) -> bool,
    size: seq<int>,
    perKeyword: int)

  /** One call of the image transformer: for which description, which
      identifier and URL, to which path, and whether the file was saved. */
  datatype Attempt = Attempt(description: string, id: int, url: string, path: string, saved: bool)

  // ---------------------------------------------------------------------
  // Search client

  /** The query for a description: photos only, as many per page as
      requested but at most 20. */
  function BuildQuery(description: string, perKeyword: int): (query: SearchQuery)
    ensures query.q == description && query.imageType == "photo"
    ensures query.perPage <= MaxPerPage
    ensures perKeyword <= MaxPerPage ==> query.perPage == perKeyword
    ensures perKeyword > MaxPerPage ==> query.perPage == MaxPerPage
  {
    SearchQuery(description, "photo", PerPage(perKeyword))
  }

  /** The candidates in a response: `(webformatURL, id)` of every hit, in
      order, for a 200 response; none for any other status or when the body
      has no `hits` field. */
  function Candidates(response: SearchResponse): (images: seq<Candidate>)
    ensures response.status != 200 || response.hits.None? ==> images == []
    ensures response.status == 200 && response.hits.Some? ==>
      && |images| == |response.hits.value|
      && forall i :: 0 <= i < |images| ==>
           images[i].url == response.hits.value[i].webformatURL && images[i].id == response.hits.value[i].id
  {
    if response.status == 200 && response.hits.Some? then
      seq(|response.hits.value|, i requires 0 <= i < |response.hits.value| =>
        Candidate(response.hits.value[i].webformatURL, response.hits.value[i].id))
    else []
  }

  /** `fetch_images_from_pixabay(description, per_keyword)`. */
  function FetchImages(env: Env, description: string): (images: seq<Candidate>)
    ensures var response := env.search(BuildQuery(description, env.perKeyword));
      && (response.status != 200 || response.hits.None? ==> images == [])
      && (response.status == 200 && response.hits.Some? ==> |images| == |response.hits.value|)
  {
    Candidates(env.search(BuildQuery(description, env.perKeyword)))
  }

  // ---------------------------------------------------------------------
  // The two loops as folds

  /** The state while one description's candidates are processed. */
  datatype Batch = Batch(paths: seq<string>, seen: set<int>, log: seq<Attempt>)

  /** The state between descriptions. */
  datatype RunState = RunState(results: map<string, seq<string>>, seen: set<int>, log: seq<Attempt>, sleeps: nat)

  /** One iteration of the inner loop: a candidate whose identifier was seen
      is skipped; otherwise it is tried, and when it was saved its path is
      listed and its identifier becomes seen. */
  function CandidateStep(attempt: Candidate -> Attempt, b: Batch, c: Candidate): (next: Batch)
    ensures c.id in b.seen ==> next == b
    ensures c.id !in b.seen ==> next.log == b.log + [attempt(c)]
    ensures c.id !in b.seen ==> (c.id in next.seen <==> attempt(c).saved)
  {
    if c.id in b.seen then b
    else
      var a := attempt(c);
      if a.saved then Batch(b.paths + [a.path], b.seen + {c.id}, b.log + [a])
      else Batch(b.paths, b.seen, b.log + [a])
  }

  /** The inner loop after its first `n` candidates. */
  function ProcessFirst(attempt: Candidate -> Attempt, start: Batch, cs: seq<Candidate>, n: nat): Batch
    requires n <= |cs|
  {
    if n == 0 then start
    else CandidateStep(attempt, ProcessFirst(attempt, start, cs, n - 1), cs[n - 1])
  }

  /** The batch a description starts from: no paths yet, and the run's
      seen identifiers and effects so far. */
  function StartBatch(run: RunState): Batch {
    Batch([], run.seen, run.log)
  }

  /** One iteration of the outer loop: the description's list replaces any
      earlier entry, and one delay follows. */
  function DescriptionStep(process: (RunState, string) -> Batch, run: RunState, description: string): (next: RunState)
    ensures next.results.Keys == run.results.Keys + {description}
    ensures forall d :: d in run.results && d != description ==> next.results[d] == run.results[d]
    ensures next.sleeps == run.sleeps + 1
  {
    var b := process(run, description);
    RunState(run.results[description := b.paths], b.seen, b.log, run.sleeps + 1)
  }

  /** The outer loop after its first `n` descriptions. */
  function RunFirst(process: (RunState, string) -> Batch, descriptions: seq<string>, n: nat): RunState
    requires n <= |descriptions|
  {
    if n == 0 then RunState(map[], {}, [], 0)
    else DescriptionStep(process, RunFirst(process, descriptions, n - 1), descriptions[n - 1])
  }

  // ---------------------------------------------------------------------
  // The program's steps

  /** Trying a candidate of a description: the transformer is called with
      its URL, the target size and the file name built from the description
      and its identifier. */
  function TryCandidate(env: Env, description: string, c: Candidate): Attempt {
    var path := GenerateFilename(ImagesDir, description, c.id);
    Attempt(description, c.id, c.url, path, env.transform(c.url, env.size, path))
  }

  function Attempts(env: Env, description: string): Candidate -> Attempt {
    c => TryCandidate(env, description, c)
  }

  /** The inner loop run over every candidate the search returns. */
  function ProcessDescription(env: Env, run: RunState, description: string): Batch {
    var images := FetchImages(env, description);
    ProcessFirst(Attempts(env, description), StartBatch(run), images, |images|)
  }

  function Process(env: Env): (RunState, string) -> Batch {
    (run, description) => ProcessDescription(env, run, description)
  }

  lemma AttemptsApply(env: Env, description: string, c: Candidate)
    ensures Attempts(env, description)(c) == TryCandidate(env, description, c)
  {
  }

  lemma ProcessApply(env: Env, run: RunState, description: string)
    ensures Process(env)(run, description) == ProcessDescription(env, run, description)
  {
  }

  /** The whole run. */
  function Run(env: Env, descriptions: seq<string>): RunState {
    RunFirst(Process(env), descriptions, |descriptions|)
  }

  // ---------------------------------------------------------------------
  // The orchestrator

  /** `process_images(descriptions, size, per_keyword)`: returns the result
      mapping, the transformer calls made (the files written are those
      marked saved) and the number of delays, which is one per description. */
  method ProcessImages(
    descriptions: seq<string>,
    search: SearchQuery -> SearchResponse,
    transform: (string, seq<int>, string) -> bool,
    size: seq<int> := DefaultCropSize,
    perKeyword: int := 1)
    returns (results: map<string, seq<string>>, log: seq<Attempt>, sleeps: nat)
    ensures var run := Run(Env(search, transform, size, perKeyword), descriptions);
      results == run.results && log == run.log
    ensures sleeps == |descriptions|
  {
    var env := Env(search, transform, size, perKeyword);
    results := map[];
    var fetchedImageIds: set<int> := {};
    log := [];
    sleeps := 0;
    for i := 0 to |descriptions|
      invariant RunState(results, fetchedImageIds, log, sleeps) == RunFirst(Process(env), descriptions, i)
      invariant sleeps == i
    {
      var description := descriptions[i];
      var images := Candidates(search(BuildQuery(description, perKeyword)));
      var imagePaths: seq<string> := [];
      ghost var start := Batch(imagePaths, fetchedImageIds, log);
      for j := 0 to |images|
        invariant Batch(imagePaths, fetchedImageIds, log) == ProcessFirst(Attempts(env, description), start, images, j)
      {
        var pixabayId := images[j].id;
        AttemptsApply(env, description, images[j]);
        if pixabayId !in fetchedImageIds {
          var savePath := GenerateFilename(ImagesDir, description, pixabayId);
          var saved := transform(images[j].url, size, savePath);
          log := log + [Attempt(description, pixabayId, images[j].url, savePath, saved)];
          if saved {
            imagePaths := imagePaths + [savePath];
            fetchedImageIds := fetchedImageIds + {pixabayId};
          }
        }
      }
      ProcessApply(env, RunFirst(Process(env), descriptions, i), description);
      results := results[description := imagePaths];
      sleeps := sleeps + 1;
    }
  }

  // ---------------------------------------------------------------------
  // Invariants of the inner loop

  /** The identifiers of the images saved. */
  function SavedIds(log: seq<Attempt>): set<int> {
    set a | a in log && a.saved :: a.id
  }

  /** Once an identifier has been saved, no later call is made for it. */
  predicate NoRetryAfterSave(log: seq<Attempt>) {
    forall i, j :: 0 <= i < j < |log| && log[i].saved ==> log[j].id != log[i].id
  }

  /** The invariant of both loops: the seen set holds exactly the saved
      identifiers, and nothing is fetched again after it was saved. */
  predicate Consistent(seen: set<int>, log: seq<Attempt>) {
    seen == SavedIds(log) && NoRetryAfterSave(log)
  }

  /** A call saves to the file name built from its description and id. */
  predicate NamedAfter(a: Attempt) {
    a.path == GenerateFilename(ImagesDir, a.description, a.id)
  }

  predicate WellNamed(log: seq<Attempt>) {
    forall i :: 0 <= i < |log| ==> NamedAfter(log[i])
  }

  /** The paths of the saved calls, in call order. */
  function SavedPaths(log: seq<Attempt>): seq<string> {
    if log == [] then []
    else SavedPaths(log[..|log| - 1]) + (if log[|log| - 1].saved then [log[|log| - 1].path] else [])
  }

  /** A way of trying candidates that calls the transformer for the
      candidate's own identifier. */
  ghost predicate KeepsIds(attempt: Candidate -> Attempt) {
    forall c :: attempt(c).id == c.id
  }

  /** ... under the given description. */
  ghost predicate Labelled(attempt: Candidate -> Attempt, description: string) {
    forall c :: attempt(c).description == description
  }

  /** ... saving to the file name built from description and identifier. */
  ghost predicate NamesFiles(attempt: Candidate -> Attempt) {
    forall c :: NamedAfter(attempt(c))
  }

  lemma SavedIdsAppend(log: seq<Attempt>, a: Attempt)
    ensures SavedIds(log + [a]) == SavedIds(log) + (if a.saved then {a.id} else {})
  {
    var l := log + [a];
    forall id | id in SavedIds(l) ensures id in SavedIds(log) + (if a.saved then {a.id} else {}) {
      var x :| x in l && x.saved && x.id == id;
      if x != a {
        assert x in log;
      }
    }
    forall id | id in SavedIds(log) ensures id in SavedIds(l) {
      var x :| x in log && x.saved && x.id == id;
      assert x in l;
    }
    if a.saved {
      assert a in l;
    }
  }

  /** One candidate keeps the invariant. */
  lemma CandidateStepConsistent(attempt: Candidate -> Attempt, b: Batch, c: Candidate)
    requires attempt(c).id == c.id
    requires Consistent(b.seen, b.log)
    ensures var b' := CandidateStep(attempt, b, c);
      Consistent(b'.seen, b'.log)
  {
    var b' := CandidateStep(attempt, b, c);
    if c.id !in b.seen {
      var a := attempt(c);
      SavedIdsAppend(b.log, a);
      assert b'.log == b.log + [a];
      forall i, j | 0 <= i < j < |b'.log| && b'.log[i].saved
        ensures b'.log[j].id != b'.log[i].id
      {
        if j == |b.log| {
          assert b.log[i] in b.log;
        }
      }
    }
  }

  /** The inner loop keeps the invariant. */
  lemma {:induction false} BatchConsistent(attempt: Candidate -> Attempt, start: Batch, cs: seq<Candidate>, n: nat)
    requires n <= |cs|
    requires KeepsIds(attempt)
    requires Consistent(start.seen, start.log)
    ensures var b := ProcessFirst(attempt, start, cs, n);
      Consistent(b.seen, b.log)
  {
    if n > 0 {
      BatchConsistent(attempt, start, cs, n - 1);
      CandidateStepConsistent(attempt, ProcessFirst(attempt, start, cs, n - 1), cs[n - 1]);
    }
  }

  /** The inner loop names every file it writes after its description and
      identifier. */
  lemma {:induction false} BatchWellNamed(attempt: Candidate -> Attempt, start: Batch, cs: seq<Candidate>, n: nat)
    requires n <= |cs|
    requires NamesFiles(attempt)
    requires WellNamed(start.log)
    ensures WellNamed(ProcessFirst(attempt, start, cs, n).log)
  {
    if n > 0 {
      BatchWellNamed(attempt, start, cs, n - 1);
      var prev := ProcessFirst(attempt, start, cs, n - 1);
      var c := cs[n - 1];
      if c.id !in prev.seen {
        assert NamedAfter(attempt(c));
        assert ProcessFirst(attempt, start, cs, n).log == prev.log + [attempt(c)];
      }
    }
  }

  /** `b` follows `a` by calls for `description` only: the call log grows
      at the end, and the path list grows by exactly the paths of the new
      calls that saved, in call order. */
  predicate Extends(a: Batch, b: Batch, description: string) {
    && a.log <= b.log
    && (forall k :: |a.log| <= k < |b.log| ==> b.log[k].description == description)
    && b.paths == a.paths + SavedPaths(b.log[|a.log|..])
  }

  lemma SliceSplit<T>(l0: seq<T>, l1: seq<T>, l2: seq<T>)
    requires l0 <= l1 <= l2
    ensures l2[|l0|..] == l1[|l0|..] + l2[|l1|..]
  {
  }

  lemma SavedPathsAppend(l1: seq<Attempt>, l2: seq<Attempt>)
    ensures SavedPaths(l1 + l2) == SavedPaths(l1) + SavedPaths(l2)
    decreases |l2|
  {
    if l2 == [] {
      assert l1 + l2 == l1;
    } else {
      var init := l2[..|l2| - 1];
      assert (l1 + l2)[..|l1 + l2| - 1] == l1 + init;
      SavedPathsAppend(l1, init);
    }
  }

  lemma ExtendsTrans(a: Batch, b: Batch, c: Batch, description: string)
    requires Extends(a, b, description) && Extends(b, c, description)
    ensures Extends(a, c, description)
  {
    SliceSplit(a.log, b.log, c.log);
    SavedPathsAppend(b.log[|a.log|..], c.log[|b.log|..]);
  }

  /** One candidate only appends to the call log, with a call for the
      description at hand, and appends to the path list exactly the path it
      saved. */
  lemma CandidateStepEffects(attempt: Candidate -> Attempt, description: string, b: Batch, c: Candidate)
    requires attempt(c).description == description
    ensures Extends(b, CandidateStep(attempt, b, c), description)
  {
    var b' := CandidateStep(attempt, b, c);
    if c.id !in b.seen {
      var a := attempt(c);
      assert b'.log[|b.log|..] == [a];
      assert SavedPaths([a]) == (if a.saved then [a.path] else []) by {
        assert [a][..0] == [];
      }
    } else {
      assert b'.log[|b.log|..] == [];
    }
  }

  /** The inner loop only appends to the call log, all its calls are for the
      description being processed, and its list holds exactly the paths it
      saved, in call order. */
  lemma {:induction false} BatchEffects(attempt: Candidate -> Attempt, description: string, start: Batch, cs: seq<Candidate>, n: nat)
    requires n <= |cs|
    requires Labelled(attempt, description)
    ensures Extends(start, ProcessFirst(attempt, start, cs, n), description)
  {
    if n == 0 {
      assert start.log[|start.log|..] == [];
    } else {
      var prev := ProcessFirst(attempt, start, cs, n - 1);
      BatchEffects(attempt, description, start, cs, n - 1);
      CandidateStepEffects(attempt, description, prev, cs[n - 1]);
      ExtendsTrans(start, prev, ProcessFirst(attempt, start, cs, n), description);
    }
  }

  // ---------------------------------------------------------------------
  // Which candidates the inner loop keeps, without reference to its state

  /** The candidate at index `k` is tried when its identifier was not seen
      before the loop and no earlier candidate with the same identifier was
      saved: a failed download leaves the identifier open to the candidates
      after it. */
  predicate Tried(attempt: Candidate -> Attempt, seen: set<int>, cs: seq<Candidate>, k: nat)
    requires k < |cs|
  {
    cs[k].id !in seen &&
    forall j :: 0 <= j < k && cs[j].id == cs[k].id ==> !attempt(cs[j]).saved
  }

  /** The paths of the first `n` candidates that are tried and saved, in
      search-result order. */
  function KeptPaths(attempt: Candidate -> Attempt, seen: set<int>, cs: seq<Candidate>, n: nat): seq<string>
    requires n <= |cs|
  {
    if n == 0 then []
    else
      var k := n - 1;
      KeptPaths(attempt, seen, cs, k)
        + (if Tried(attempt, seen, cs, k) && attempt(cs[k]).saved then [attempt(cs[k]).path] else [])
  }

  /** The identifiers of the first `n` candidates that would be saved if
      tried. */
  function SucceedingIds(attempt: Candidate -> Attempt, cs: seq<Candidate>, n: nat): set<int>
    requires n <= |cs|
  {
    set k | 0 <= k < n && attempt(cs[k]).saved :: cs[k].id
  }

  lemma SucceedingIdsNext(attempt: Candidate -> Attempt, cs: seq<Candidate>, k: nat)
    requires k < |cs|
    ensures SucceedingIds(attempt, cs, k + 1)
         == SucceedingIds(attempt, cs, k) + (if attempt(cs[k]).saved then {cs[k].id} else {})
  {
    var ids, next := SucceedingIds(attempt, cs, k), SucceedingIds(attempt, cs, k + 1);
    forall id | id in next
      ensures id in ids + (if attempt(cs[k]).saved then {cs[k].id} else {})
    {
      var j :| 0 <= j < k + 1 && attempt(cs[j]).saved && cs[j].id == id;
      if j < k {
        assert id in ids;
      }
    }
  }

  /** Before candidate `k`, its identifier is seen exactly when it is not
      tried. */
  lemma SeenWhenNotTried(attempt: Candidate -> Attempt, seen0: set<int>, cs: seq<Candidate>, k: nat, seen: set<int>)
    requires k < |cs|
    requires seen == seen0 + SucceedingIds(attempt, cs, k)
    ensures cs[k].id in seen <==> !Tried(attempt, seen0, cs, k)
  {
    var ids := SucceedingIds(attempt, cs, k);
    if !Tried(attempt, seen0, cs, k) && cs[k].id !in seen0 {
      var j :| 0 <= j < k && cs[j].id == cs[k].id && attempt(cs[j]).saved;
      assert cs[j].id in ids;
    }
    if cs[k].id in ids {
      var j :| 0 <= j < k && attempt(cs[j]).saved && cs[j].id == cs[k].id;
    }
  }

  /** The inner loop keeps exactly the candidates that are tried and saved,
      in order, and afterwards the identifier of every candidate that would
      be saved is seen. */
  lemma {:induction false} BatchKeeps(attempt: Candidate -> Attempt, start: Batch, cs: seq<Candidate>, n: nat)
    requires n <= |cs|
    ensures var b := ProcessFirst(attempt, start, cs, n);
      && b.seen == start.seen + SucceedingIds(attempt, cs, n)
      && b.paths == start.paths + KeptPaths(attempt, start.seen, cs, n)
  {
    if n > 0 {
      var k := n - 1;
      var prev := ProcessFirst(attempt, start, cs, k);
      BatchKeeps(attempt, start, cs, k);
      SeenWhenNotTried(attempt, start.seen, cs, k, prev.seen);
      SucceedingIdsNext(attempt, cs, k);
    }
  }

  // ---------------------------------------------------------------------
  // Invariants of the outer loop

  /** A description step keeps the invariant. */
  ghost predicate PreservesConsistent(process: (RunState, string) -> Batch) {
    forall run: RunState, description: string :: Consistent(run.seen, run.log) ==>
      Consistent(process(run, description).seen, process(run, description).log)
  }

  /** A description step names its files after description and identifier. */
  ghost predicate PreservesWellNamed(process: (RunState, string) -> Batch) {
    forall run: RunState, description: string :: WellNamed(run.log) ==> WellNamed(process(run, description).log)
  }

  /** The descriptions among the first `n`. */
  function DescriptionsSoFar(descriptions: seq<string>, n: nat): set<string>
    requires n <= |descriptions|
  {
    set i | 0 <= i < n :: descriptions[i]
  }

  lemma {:induction false} RunConsistent(process: (RunState, string) -> Batch, descriptions: seq<string>, n: nat)
    requires n <= |descriptions|
    requires PreservesConsistent(process)
    ensures var run := RunFirst(process, descriptions, n);
      Consistent(run.seen, run.log)
  {
    if n > 0 {
      RunConsistent(process, descriptions, n - 1);
    }
  }

  lemma {:induction false} RunWellNamed(process: (RunState, string) -> Batch, descriptions: seq<string>, n: nat)
    requires n <= |descriptions|
    requires PreservesWellNamed(process)
    ensures WellNamed(RunFirst(process, descriptions, n).log)
  {
    if n > 0 {
      RunWellNamed(process, descriptions, n - 1);
    }
  }

  /** After `n` descriptions the mapping has one entry per distinct
      description so far, and there has been one delay per description. */
  lemma {:induction false} RunShape(process: (RunState, string) -> Batch, descriptions: seq<string>, n: nat)
    requires n <= |descriptions|
    ensures var run := RunFirst(process, descriptions, n);
      run.results.Keys == DescriptionsSoFar(descriptions, n) && run.sleeps == n
  {
    if n > 0 {
      RunShape(process, descriptions, n - 1);
      assert DescriptionsSoFar(descriptions, n) == DescriptionsSoFar(descriptions, n - 1) + {descriptions[n - 1]};
    } else {
      assert DescriptionsSoFar(descriptions, 0) == {};
    }
  }

  /** A description's entry is the list its last occurrence produced: a
      repeated description overwrites what its earlier occurrences got. */
  lemma {:induction false} LastOccurrenceWins(process: (RunState, string) -> Batch, descriptions: seq<string>, i: nat, n: nat)
    requires i < n <= |descriptions|
    requires forall j :: i < j < n ==> descriptions[j] != descriptions[i]
    ensures descriptions[i] in RunFirst(process, descriptions, n).results
    ensures RunFirst(process, descriptions, n).results[descriptions[i]]
         == process(RunFirst(process, descriptions, i), descriptions[i]).paths
  {
    if n > i + 1 {
      LastOccurrenceWins(process, descriptions, i, n - 1);
    }
  }

  // ---------------------------------------------------------------------
  // The program's steps have the properties

  /** Whether the transformer saves a candidate of a description. */
  predicate Succeeds(env: Env, description: string, c: Candidate) {
    env.transform(c.url, env.size, GenerateFilename(ImagesDir, description, c.id))
  }

  /** Trying a candidate keeps its identifier, is labelled with the
      description, names the file after both, and saves exactly when the
      transformer succeeds. */
  lemma AttemptsBehave(env: Env, description: string)
    ensures KeepsIds(Attempts(env, description))
    ensures Labelled(Attempts(env, description), description)
    ensures NamesFiles(Attempts(env, description))
    ensures forall c :: Attempts(env, description)(c).saved == Succeeds(env, description, c)
  {
    forall c ensures NamedAfter(Attempts(env, description)(c)) {
      assert Attempts(env, description)(c) == TryCandidate(env, description, c);
    }
  }

  lemma ProcessBehaves(env: Env)
    ensures PreservesConsistent(Process(env))
    ensures PreservesWellNamed(Process(env))
  {
    forall run: RunState, description: string | Consistent(run.seen, run.log)
      ensures Consistent(Process(env)(run, description).seen, Process(env)(run, description).log)
    {
      var images := FetchImages(env, description);
      AttemptsBehave(env, description);
      BatchConsistent(Attempts(env, description), StartBatch(run), images, |images|);
    }
    forall run: RunState, description: string | WellNamed(run.log)
      ensures WellNamed(Process(env)(run, description).log)
    {
      var images := FetchImages(env, description);
      AttemptsBehave(env, description);
      BatchWellNamed(Attempts(env, description), StartBatch(run), images, |images|);
    }
  }

  // ---------------------------------------------------------------------
  // What the run guarantees

  /** Across the whole run an identifier is saved at most once: after it
      has been saved, every later candidate with that identifier, under any
      description, is skipped without a download. So no two files are
      written to the same path. */
  lemma SavedAtMostOnce(env: Env, descriptions: seq<string>)
    ensures var log := Run(env, descriptions).log;
      && (forall i, j :: 0 <= i < j < |log| && log[i].saved ==> log[j].id != log[i].id)
      && (forall i, j :: 0 <= i < j < |log| && log[i].saved && log[j].saved ==> log[i].path != log[j].path)
  {
    var log := Run(env, descriptions).log;
    ProcessBehaves(env);
    RunConsistent(Process(env), descriptions, |descriptions|);
    RunWellNamed(Process(env), descriptions, |descriptions|);
    forall i, j | 0 <= i < j < |log| && log[i].saved && log[j].saved
      ensures log[i].path != log[j].path
    {
      assert NamedAfter(log[i]) && NamedAfter(log[j]);
      FilenameInjective(ImagesDir, log[i].description, log[i].id, log[j].description, log[j].id, ".png");
    }
  }

  /** An identifier is in the seen set exactly when a call for it saved
      the image: a failed download marks nothing as seen. */
  lemma SeenOnlyWhenSaved(env: Env, descriptions: seq<string>)
    ensures var run := Run(env, descriptions);
      forall id :: id in run.seen <==> exists a :: a in run.log && a.saved && a.id == id
  {
    ProcessBehaves(env);
    RunConsistent(Process(env), descriptions, |descriptions|);
  }

  /** The result mapping has one entry per distinct description, and the
      run sleeps once per description, including after the last. */
  lemma ResultsCoverDescriptions(env: Env, descriptions: seq<string>)
    ensures var run := Run(env, descriptions);
      && (forall d :: d in run.results <==> d in descriptions)
      && run.sleeps == |descriptions|
  {
    RunShape(Process(env), descriptions, |descriptions|);
    var run := Run(env, descriptions);
    forall d ensures d in run.results <==> d in descriptions {
      if d in descriptions {
        var i :| 0 <= i < |descriptions| && descriptions[i] == d;
        assert d in DescriptionsSoFar(descriptions, |descriptions|);
      }
    }
  }

  /** The entry of a description whose last occurrence is at index `i`
      lists, in search-result order, the paths of exactly those candidates
      of that search whose identifier was not saved for an earlier
      description, whose download succeeds, and that no earlier candidate
      with the same identifier beat; every call made for that occurrence is
      labelled with the description, and its list is exactly the files those
      calls saved. */
  lemma DescriptionEntry(env: Env, descriptions: seq<string>, i: nat)
    requires i < |descriptions|
    requires forall j :: i < j < |descriptions| ==> descriptions[j] != descriptions[i]
    ensures var d, before := descriptions[i], RunFirst(Process(env), descriptions, i);
      var images := FetchImages(env, d);
      && d in Run(env, descriptions).results
      && Run(env, descriptions).results[d] == KeptPaths(Attempts(env, d), before.seen, images, |images|)
      && (forall c :: Attempts(env, d)(c).saved == Succeeds(env, d, c))
      && Extends(StartBatch(before), ProcessDescription(env, before, d), d)
      && before.seen == SavedIds(before.log)
  {
    var d, before := descriptions[i], RunFirst(Process(env), descriptions, i);
    var images := FetchImages(env, d);
    LastOccurrenceWins(Process(env), descriptions, i, |descriptions|);
    assert Process(env)(before, d) == ProcessDescription(env, before, d);
    BatchKeeps(Attempts(env, d), StartBatch(before), images, |images|);
    AttemptsBehave(env, d);
    BatchEffects(Attempts(env, d), d, StartBatch(before), images, |images|);
    ProcessBehaves(env);
    RunConsistent(Process(env), descriptions, i);
  }

  // ---------------------------------------------------------------------
  // Scenarios

  /** A run over two descriptions is two outer steps from the empty state. */
  lemma RunTwo(env: Env, first: string, second: string)
    ensures var r0 := RunState(map[], {}, [], 0);
      var r1 := DescriptionStep(Process(env), r0, first);
      && Run(env, [first, second]) == DescriptionStep(Process(env), r1, second)
      && r1 == RunState(map[first := ProcessDescription(env, r0, first).paths],
                        ProcessDescription(env, r0, first).seen, ProcessDescription(env, r0, first).log, 1)
  {
    var ds := [first, second];
    assert RunFirst(Process(env), ds, 1) == DescriptionStep(Process(env), RunFirst(Process(env), ds, 0), first);
    assert Process(env)(RunState(map[], {}, [], 0), first) == ProcessDescription(env, RunState(map[], {}, [], 0), first);
  }

  /** The second outer step, spelled out. */
  lemma SecondStep(env: Env, r1: RunState, second: string)
    ensures DescriptionStep(Process(env), r1, second)
         == RunState(r1.results[second := ProcessDescription(env, r1, second).paths],
                     ProcessDescription(env, r1, second).seen, ProcessDescription(env, r1, second).log, r1.sleeps + 1)
  {
    assert Process(env)(r1, second) == ProcessDescription(env, r1, second);
  }

  /** A description whose search yields nothing keeps the run's state. */
  lemma NoCandidates(env: Env, run: RunState, description: string)
    requires FetchImages(env, description) == []
    ensures ProcessDescription(env, run, description) == StartBatch(run)
  {
  }

  /** A description whose search yields one candidate is one inner step. */
  lemma OneCandidate(env: Env, run: RunState, description: string, hit: Hit)
    requires env.search(BuildQuery(description, env.perKeyword)) == SearchResponse(200, Some([hit]))
    ensures var c := Candidate(hit.webformatURL, hit.id);
      var a := TryCandidate(env, description, c);
      ProcessDescription(env, run, description)
        == if hit.id in run.seen then StartBatch(run)
           else if a.saved then Batch([a.path], run.seen + {hit.id}, run.log + [a])
           else Batch([], run.seen, run.log + [a])
  {
    var images := FetchImages(env, description);
    var c := Candidate(hit.webformatURL, hit.id);
    assert images == [c];
    assert ProcessFirst(Attempts(env, description), StartBatch(run), images, 0) == StartBatch(run);
    assert Attempts(env, description)(c) == TryCandidate(env, description, c);
  }

  /** Two descriptions whose searches both return the same image: it is
      downloaded and saved once, under the first description, and the second
      description's list is empty. */
  lemma SharedImageScenario(env: Env, first: string, second: string, hit: Hit)
    requires first != second
    requires env.search(BuildQuery(first, env.perKeyword)) == SearchResponse(200, Some([hit]))
    requires env.search(BuildQuery(second, env.perKeyword)) == SearchResponse(200, Some([hit]))
    requires Succeeds(env, first, Candidate(hit.webformatURL, hit.id))
    ensures var run := Run(env, [first, second]);
      && run.results == map[first := [GenerateFilename(ImagesDir, first, hit.id)], second := []]
      && |run.log| == 1
  {
    var r0 := RunState(map[], {}, [], 0);
    RunTwo(env, first, second);
    OneCandidate(env, r0, first, hit);
    var r1 := DescriptionStep(Process(env), r0, first);
    SecondStep(env, r1, second);
    OneCandidate(env, r1, second, hit);
  }

  /** A description typed twice: the second search finds only images the
      first occurrence already saved, so its empty list replaces the first
      one, although the file was written. */
  lemma RepeatedDescriptionScenario(env: Env, description: string, hit: Hit)
    requires env.search(BuildQuery(description, env.perKeyword)) == SearchResponse(200, Some([hit]))
    requires Succeeds(env, description, Candidate(hit.webformatURL, hit.id))
    ensures var run := Run(env, [description, description]);
      && run.results == map[description := []]
      && |run.log| == 1 && run.log[0].saved
  {
    var r0 := RunState(map[], {}, [], 0);
    RunTwo(env, description, description);
    OneCandidate(env, r0, description, hit);
    var r1 := DescriptionStep(Process(env), r0, description);
    SecondStep(env, r1, description);
    OneCandidate(env, r1, description, hit);
  }

  /** A failed search for one description (any status but 200) leaves that
      description with an empty list and does not disturb the next one. */
  lemma FailedSearchScenario(env: Env, failing: string, working: string, status: int, hit: Hit)
    requires failing != working && status != 200
    requires env.search(BuildQuery(failing, env.perKeyword)).status == status
    requires env.search(BuildQuery(working, env.perKeyword)) == SearchResponse(200, Some([hit]))
    requires Succeeds(env, working, Candidate(hit.webformatURL, hit.id))
    ensures Run(env, [failing, working]).results
         == map[failing := [], working := [GenerateFilename(ImagesDir, working, hit.id)]]
  {
    var r0 := RunState(map[], {}, [], 0);
    RunTwo(env, failing, working);
    NoCandidates(env, r0, failing);
    var r1 := DescriptionStep(Process(env), r0, failing);
    SecondStep(env, r1, working);
    OneCandidate(env, r1, working, hit);
  }

  /** A failed download does not mark the identifier as seen: when the
      same image comes back for a later description and downloads then, it is
      saved there. */
  lemma FailedDownloadRetriedScenario(env: Env, first: string, second: string, hit: Hit)
    requires first != second
    requires env.search(BuildQuery(first, env.perKeyword)) == SearchResponse(200, Some([hit]))
    requires env.search(BuildQuery(second, env.perKeyword)) == SearchResponse(200, Some([hit]))
    requires !Succeeds(env, first, Candidate(hit.webformatURL, hit.id))
    requires Succeeds(env, second, Candidate(hit.webformatURL, hit.id))
    ensures var run := Run(env, [first, second]);
      && run.results == map[first := [], second := [GenerateFilename(ImagesDir, second, hit.id)]]
      && |run.log| == 2 && !run.log[0].saved && run.log[1].saved
  {
    var r0 := RunState(map[], {}, [], 0);
    RunTwo(env, first, second);
    OneCandidate(env, r0, first, hit);
    var r1 := DescriptionStep(Process(env), r0, first);
    SecondStep(env, r1, second);
    OneCandidate(env, r1, second, hit);
  }

  /** Two different descriptions, each of whose searches returns one image,
      with distinct identifiers, and both downloads work: each description
      maps to its one file. */
  lemma TwoDescriptionsScenario(env: Env, first: string, second: string, one: Hit, two: Hit)
    requires first != second && one.id != two.id
    requires env.search(BuildQuery(first, env.perKeyword)) == SearchResponse(200, Some([one]))
    requires env.search(BuildQuery(second, env.perKeyword)) == SearchResponse(200, Some([two]))
    requires Succeeds(env, first, Candidate(one.webformatURL, one.id))
    requires Succeeds(env, second, Candidate(two.webformatURL, two.id))
    ensures Run(env, [first, second]).results
         == map[first := [GenerateFilename(ImagesDir, first, one.id)],
                second := [GenerateFilename(ImagesDir, second, two.id)]]
  {
    var r0 := RunState(map[], {}, [], 0);
    RunTwo(env, first, second);
    OneCandidate(env, r0, first, one);
    var r1 := DescriptionStep(Process(env), r0, first);
    SecondStep(env, r1, second);
    OneCandidate(env, r1, second, two);
  }

  // ---------------------------------------------------------------------
  // The script's entry point

  /** The `__main__` block with its three answers as parameters: the
      descriptions, the crop size and the image count are parsed, and the
      orchestrator runs; `None` when the crop size is not made of integers
      (Python stops with `ValueError`). */
  method RunScript(
    userInput: string,
    cropSizeInput: string,
    numImagesInput: string,
    search: SearchQuery -> SearchResponse,
    transform: (string, seq<int>, string) -> bool)
    returns (outcome: Option<map<string, seq<string>>>)
    ensures outcome.None? <==> ParseCropSize(cropSizeInput).None?
    ensures outcome.Some? ==>
      var env := Env(search, transform, ParseCropSize(cropSizeInput).value, ParseNumImages(numImagesInput));
      outcome.value == Run(env, ParseDescriptions(userInput)).results
  {
    var descriptions := ParseDescriptions(userInput);
    var cropSize := ParseCropSize(cropSizeInput);
    if cropSize.None? {
      return None;
    }
    var numImages := ParseNumImages(numImagesInput);
    var images, _, _ := ProcessImages(descriptions, search, transform, cropSize.value, numImages);
    outcome := Some(images);
  }

  /** A two-word description is saved as `images/<word>_<word>-pixabay-<id>.png`. */
  lemma TwoWordFileName(a: string, b: string, pixabayId: int)
    requires ' ' !in a && '"' !in a && '\'' !in a
    requires ' ' !in b && '"' !in b && '\'' !in b
    ensures GenerateFilename(ImagesDir, a + " " + b, pixabayId)
         == ImagesDir + "/" + a + "_" + b + Marker + IntToString(pixabayId) + ".png"
  {
    SanitizeTwoWords(a, b);
  }

  /** The end-to-end example in general form: the answers `first, second`,
      `WxH` and a count are read as two descriptions, the crop size [W, H]
      and the count capped at 20; when each search returns one image, with
      distinct identifiers, and both downloads work, each description maps to
      its one file. (`red car, blue car`, `800x400` and `1` is one instance.) */
  lemma EndToEndScenario(
    search: SearchQuery -> SearchResponse,
    transform: (string, seq<int>, string) -> bool,
    first: string, second: string, width: int, height: int, count: nat, one: Hit, two: Hit)
    requires ',' !in first && IsStripped(first)
    requires ',' !in second && IsStripped(second)
    requires first != second && one.id != two.id
    requires search(BuildQuery(first, CappedCount(count))) == SearchResponse(200, Some([one]))
    requires search(BuildQuery(second, CappedCount(count))) == SearchResponse(200, Some([two]))
    requires transform(one.webformatURL, [width, height], GenerateFilename(ImagesDir, first, one.id))
    requires transform(two.webformatURL, [width, height], GenerateFilename(ImagesDir, second, two.id))
    ensures ParseDescriptions(first + ", " + second) == [first, second]
    ensures ParseCropSize(IntToString(width) + "x" + IntToString(height)) == Some([width, height])
    ensures ParseNumImages(NatToString(count)) == CappedCount(count)
    ensures Run(Env(search, transform, [width, height], CappedCount(count)), [first, second]).results
         == map[first := [GenerateFilename(ImagesDir, first, one.id)],
                second := [GenerateFilename(ImagesDir, second, two.id)]]
  {
    ExampleAnswers(first, second, width, height, count);
    TwoDescriptionsScenario(Env(search, transform, [width, height], CappedCount(count)), first, second, one, two);
  }
}
