/**
  One run of the bot: search once with the combined query, drop already
  posted tweets, filter, post each relevant tweet, and remember the ids whose
  post succeeded. The search API is a function of the query and the result
  cap; the webhook is an oracle that answers each post attempt, in order.
*/
module Bot {
  import opened Seqs
  import opened Tweets
  import opened Filter

  /**
    What a run leaves behind: the set of posted ids, the `posted_count` it
    reports, and whether it rewrote the posted-ids file.
  */
  datatype RunResult = RunResult(posted: set<int>, postedCount: nat, saved: bool)

  /** The set of posted ids and the number of successes after some post attempts. */
  datatype Tally = Tally(posted: set<int>, count: nat)

  /**
    The webhook's answer to post attempt `i` (counted from 0): attempts
    beyond the supplied answers fail.
  */
  predicate Delivered(outcomes: seq<bool>, i: nat)
  {
    i < |outcomes| && outcomes[i]
  }

  /** The positions, among the first `n` attempts, whose post succeeded. */
  function SuccessIndices(n: nat, outcomes: seq<bool>): set<nat>
  {
    set i: nat | i < n && Delivered(outcomes, i)
  }

  /** The ids of the jobs whose post succeeded. */
  function DeliveredIds(jobs: seq<JobRecord>, outcomes: seq<bool>): set<int>
  {
    set i | 0 <= i < |jobs| && Delivered(outcomes, i) :: jobs[i].id
  }

  /** One more attempt adds its position to the successes exactly when it succeeded. */
  lemma SuccessIndicesStep(n: nat, outcomes: seq<bool>)
    ensures SuccessIndices(n + 1, outcomes) == SuccessIndices(n, outcomes) + (if Delivered(outcomes, n) then {n} else {})
  {
  }

  /** One more job adds its id to the delivered ids exactly when its post succeeded. */
  lemma DeliveredIdsStep(jobs: seq<JobRecord>, outcomes: seq<bool>)
    requires |jobs| > 0
    ensures var n := |jobs| - 1;
      DeliveredIds(jobs, outcomes) == DeliveredIds(jobs[..n], outcomes) + (if Delivered(outcomes, n) then {jobs[n].id} else {})
  {
    var n := |jobs| - 1;
    assert forall i :: 0 <= i < n ==> jobs[..n][i] == jobs[i];
  }

  /**
    The posting loop of `run`: each successful post adds the job's id to the
    set and one to the count; a failed post changes neither.
  */
  function PostAll(jobs: seq<JobRecord>, outcomes: seq<bool>, posted: set<int>): (t: Tally)
    ensures t.posted == posted + DeliveredIds(jobs, outcomes)
    ensures t.count == |SuccessIndices(|jobs|, outcomes)|
    ensures t.count <= |jobs|
  {
    if |jobs| == 0 then
      assert SuccessIndices(0, outcomes) == {};
      Tally(posted, 0)
    else
      var n := |jobs| - 1;
      var before := PostAll(jobs[..n], outcomes, posted);
      DeliveredIdsStep(jobs, outcomes);
      SuccessIndicesStep(n, outcomes);
      if Delivered(outcomes, n) then
        Tally(before.posted + {jobs[n].id}, before.count + 1)
      else
        before
  }

  /** The answer of the one search call a run makes. */
  function RunSearch(search: (string, int) -> SearchResponse, keywords: seq<string>, maxResults: int): SearchResponse
  {
    search(BuildQuery(keywords), maxResults)
  }

  /** The jobs a run tries to post: the new search results that pass the filter. */
  function RelevantJobs(resp: SearchResponse, cfg: FilterConfig, posted: set<int>): seq<JobRecord>
  {
    FilterRelevant(SearchJobs(resp, posted), cfg)
  }

  /**
    `run`: stop without saving when the search brings nothing new; otherwise
    filter, post, and save the updated set of ids.
  */
  function Run(
    search: (string, int) -> SearchResponse, keywords: seq<string>, cfg: FilterConfig, maxResults: int,
    posted: set<int>, outcomes: seq<bool>): (r: RunResult)
    ensures var resp := RunSearch(search, keywords, maxResults);
      r.saved <==> |SearchJobs(resp, posted)| > 0
    ensures !r.saved ==> r.posted == posted && r.postedCount == 0
    ensures var jobs := RelevantJobs(RunSearch(search, keywords, maxResults), cfg, posted);
      && r.posted == posted + DeliveredIds(jobs, outcomes)
      && r.postedCount == |SuccessIndices(|jobs|, outcomes)|
      && r.postedCount <= |jobs|
      && (forall x :: x in jobs ==> x.id !in posted)
  {
    var resp := RunSearch(search, keywords, maxResults);
    var tweets := SearchJobs(resp, posted);
    if |tweets| == 0 then
      assert RelevantJobs(resp, cfg, posted) == [];
      assert SuccessIndices(0, outcomes) == {};
      RunResult(posted, 0, false)
    else
      var tally := PostAll(FilterRelevant(tweets, cfg), outcomes, posted);
      RunResult(tally.posted, tally.count, true)
  }

  /** The last job's id is not among the delivered ids of the jobs before it, when ids are distinct. */
  lemma LastIdIsNew(jobs: seq<JobRecord>, outcomes: seq<bool>)
    requires |jobs| > 0
    requires DistinctBy(jobs, RecordId)
    ensures jobs[|jobs| - 1].id !in DeliveredIds(jobs[..|jobs| - 1], outcomes)
    ensures DistinctBy(jobs[..|jobs| - 1], RecordId)
  {
    var n := |jobs| - 1;
    var front := jobs[..n];
    forall i | 0 <= i < n
      ensures front[i].id != jobs[n].id
    {
      assert RecordId(jobs[i]) != RecordId(jobs[n]);
    }
    forall i, j | 0 <= i < j < |front|
      ensures RecordId(front[i]) != RecordId(front[j])
    {
      assert RecordId(jobs[i]) != RecordId(jobs[j]);
    }
  }

  /** With distinct ids, the successes of a posting loop add exactly as many ids as they count. */
  lemma {:induction false} DistinctDeliveries(jobs: seq<JobRecord>, outcomes: seq<bool>)
    requires DistinctBy(jobs, RecordId)
    ensures |DeliveredIds(jobs, outcomes)| == |SuccessIndices(|jobs|, outcomes)|
    decreases |jobs|
  {
    if |jobs| == 0 {
      assert SuccessIndices(0, outcomes) == {};
    } else {
      var n := |jobs| - 1;
      LastIdIsNew(jobs, outcomes);
      DistinctDeliveries(jobs[..n], outcomes);
      DeliveredIdsStep(jobs, outcomes);
      SuccessIndicesStep(n, outcomes);
    }
  }

  /**
    Posting jobs with distinct, not yet posted ids grows the posted set by
    exactly the number of successes.
  */
  lemma PostAllGrowsByCount(jobs: seq<JobRecord>, outcomes: seq<bool>, posted: set<int>)
    requires DistinctBy(jobs, RecordId)
    requires forall i :: 0 <= i < |jobs| ==> jobs[i].id !in posted
    ensures |PostAll(jobs, outcomes, posted).posted| == |posted| + PostAll(jobs, outcomes, posted).count
  {
    DistinctDeliveries(jobs, outcomes);
    var delivered := DeliveredIds(jobs, outcomes);
    assert posted * delivered == {};
  }

  /**
    When the API lists every tweet once, a run grows the posted set by
    exactly `posted_count` ids.
  */
  lemma RunGrowsByPostedCount(
    search: (string, int) -> SearchResponse, keywords: seq<string>, cfg: FilterConfig, maxResults: int,
    posted: set<int>, outcomes: seq<bool>)
    requires DistinctBy(DataOf(RunSearch(search, keywords, maxResults)), TweetId)
    ensures var r := Run(search, keywords, cfg, maxResults, posted, outcomes);
      |r.posted| == |posted| + r.postedCount
  {
    var resp := RunSearch(search, keywords, maxResults);
    var tweets := SearchJobs(resp, posted);
    var jobs := RelevantJobs(resp, cfg, posted);
    SearchJobsDistinct(resp, posted);
    SubsequenceDistinctBy(jobs, tweets, RecordId);
    assert forall i :: 0 <= i < |jobs| ==> jobs[i] in jobs;
    PostAllGrowsByCount(jobs, outcomes, posted);
  }

  /**
    A relevant job whose id is still missing from a later posted set (as
    after a failed post) is tried again by a run over the same search results
    with that set.
  */
  lemma FailedPostRetried(resp: SearchResponse, cfg: FilterConfig, posted: set<int>, later: set<int>, x: JobRecord)
    requires x in RelevantJobs(resp, cfg, posted)
    requires x.id !in later
    ensures x in RelevantJobs(resp, cfg, later)
  {
    var data, users := DataOf(resp), UsersOf(resp);
    assert x in SearchJobs(resp, posted);
    var i :| 0 <= i < |data| && data[i].id !in posted && x == ToRecord(data[i], users);
    assert ToRecord(data[i], users) in SearchJobs(resp, later);
  }

  /**
    When the API lists every tweet once, a job whose post failed is not in
    the posted set after the posting loop.
  */
  lemma FailedPostNotRecorded(resp: SearchResponse, cfg: FilterConfig, posted: set<int>, outcomes: seq<bool>, i: int)
    requires DistinctBy(DataOf(resp), TweetId)
    requires 0 <= i < |RelevantJobs(resp, cfg, posted)|
    requires !Delivered(outcomes, i)
    ensures var jobs := RelevantJobs(resp, cfg, posted);
      jobs[i].id !in posted + DeliveredIds(jobs, outcomes)
  {
    var tweets := SearchJobs(resp, posted);
    var jobs := RelevantJobs(resp, cfg, posted);
    SearchJobsDistinct(resp, posted);
    SubsequenceDistinctBy(jobs, tweets, RecordId);
    assert jobs[i] in jobs;
    forall k | 0 <= k < |jobs| && Delivered(outcomes, k)
      ensures jobs[k].id != jobs[i].id
    {
      assert k != i;
      if k < i {
        assert RecordId(jobs[k]) != RecordId(jobs[i]);
      } else {
        assert RecordId(jobs[i]) != RecordId(jobs[k]);
      }
    }
  }

  /**
    When the API lists every tweet once, a job whose post failed in a run
    stays out of the posted set and is tried again by the next run over the
    same search results.
  */
  lemma FailedPostRetriedNextRun(
    search: (string, int) -> SearchResponse, keywords: seq<string>, cfg: FilterConfig, maxResults: int,
    posted: set<int>, outcomes: seq<bool>, i: int)
    requires DistinctBy(DataOf(RunSearch(search, keywords, maxResults)), TweetId)
    requires 0 <= i < |RelevantJobs(RunSearch(search, keywords, maxResults), cfg, posted)|
    requires !Delivered(outcomes, i)
    ensures var jobs := RelevantJobs(RunSearch(search, keywords, maxResults), cfg, posted);
      var after := Run(search, keywords, cfg, maxResults, posted, outcomes).posted;
      jobs[i].id !in after && jobs[i] in RelevantJobs(RunSearch(search, keywords, maxResults), cfg, after)
  {
    var resp := RunSearch(search, keywords, maxResults);
    var jobs := RelevantJobs(resp, cfg, posted);
    var after := Run(search, keywords, cfg, maxResults, posted, outcomes).posted;
    FailedPostNotRecorded(resp, cfg, posted, outcomes, i);
    assert jobs[i] in jobs;
    FailedPostRetried(resp, cfg, posted, after, jobs[i]);
  }

  /**
    Once every relevant job of a search has been posted, the same search
    results hold nothing relevant that is still unposted.
  */
  lemma NothingRelevantLeft(resp: SearchResponse, cfg: FilterConfig, posted: set<int>, outcomes: seq<bool>)
    requires var jobs := RelevantJobs(resp, cfg, posted);
      forall i :: 0 <= i < |jobs| ==> Delivered(outcomes, i)
    ensures RelevantJobs(resp, cfg, posted + DeliveredIds(RelevantJobs(resp, cfg, posted), outcomes)) == []
  {
    var jobs := RelevantJobs(resp, cfg, posted);
    var after := posted + DeliveredIds(jobs, outcomes);
    var data, users := DataOf(resp), UsersOf(resp);
    forall x | x in SearchJobs(resp, posted) && IsRelevant(x.text, cfg)
      ensures x.id in after
    {
      assert x in jobs;
      var k :| 0 <= k < |jobs| && jobs[k] == x;
      assert Delivered(outcomes, k);
    }
    forall x | x in SearchJobs(resp, after)
      ensures !IsRelevant(x.text, cfg)
    {
      var i :| 0 <= i < |data| && data[i].id !in after && x == ToRecord(data[i], users);
      assert x in SearchJobs(resp, posted);
    }
    NoneRelevant(SearchJobs(resp, after), cfg);
  }

  /**
    Running twice over the same search results, with every post of the first
    run succeeding, the second run posts nothing and leaves the set as it was.
  */
  lemma SecondRunIsIdle(
    search: (string, int) -> SearchResponse, keywords: seq<string>, cfg: FilterConfig, maxResults: int,
    posted: set<int>, outcomes: seq<bool>, outcomes2: seq<bool>)
    requires var jobs := RelevantJobs(RunSearch(search, keywords, maxResults), cfg, posted);
      forall i :: 0 <= i < |jobs| ==> Delivered(outcomes, i)
    ensures var first := Run(search, keywords, cfg, maxResults, posted, outcomes);
      var second := Run(search, keywords, cfg, maxResults, first.posted, outcomes2);
      second.posted == first.posted && second.postedCount == 0
  {
    var resp := RunSearch(search, keywords, maxResults);
    NothingRelevantLeft(resp, cfg, posted, outcomes);
    assert SuccessIndices(0, outcomes2) == {};
  }
}
