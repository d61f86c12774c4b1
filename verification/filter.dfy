/**
  `filter_relevant_jobs`: keep a record when its lower-cased text contains an
  include keyword (or the include list is empty) and contains no exclude
  keyword. Exclusion always wins.
*/
module Filter {
  import opened Seqs
  import opened Text
  import opened Tweets

  /** The `include` and `exclude` lists of the filter configuration; a missing key is an empty list. */
  datatype FilterConfig = FilterConfig(includeKeywords: seq<string>, excludeKeywords: seq<string>)

  /** `has_include`: true when the include list is empty, else some lower-cased include keyword occurs. */
  predicate HasInclude(text: string, keywords: seq<string>)
  {
    |keywords| == 0 || ContainsAny(Lower(text), LowerAll(keywords))
  }

  /** `has_exclude`: some lower-cased exclude keyword occurs in the lower-cased text. */
  predicate HasExclude(text: string, keywords: seq<string>)
  {
    ContainsAny(Lower(text), LowerAll(keywords))
  }

  /** The decision taken for one tweet. */
  predicate IsRelevant(text: string, cfg: FilterConfig)
  {
    HasInclude(text, cfg.includeKeywords) && !HasExclude(text, cfg.excludeKeywords)
  }

  /**
    The relevant records, in input order and unchanged: exactly the
    relevant ones, each as often as it occurs in the input.
  */
  function FilterRelevant(tweets: seq<JobRecord>, cfg: FilterConfig): (r: seq<JobRecord>)
    ensures Subsequence(r, tweets)
    ensures forall x :: x in r ==> x in tweets && IsRelevant(x.text, cfg)
    ensures forall x :: x in tweets && IsRelevant(x.text, cfg) ==> x in r
    ensures |r| <= |tweets|
  {
    if |tweets| == 0 then []
    else
      var rest := FilterRelevant(tweets[1..], cfg);
      assert tweets == [tweets[0]] + tweets[1..];
      if IsRelevant(tweets[0].text, cfg) then
        var r := [tweets[0]] + rest;
        assert r[1..] == rest;
        r
      else
        assert Subsequence(rest, tweets) by {
          if |rest| > 0 {
            assert Subsequence(rest, tweets[1..]);
          }
        }
        rest
  }

  /** Each relevant record is kept as often as it occurs; every other record is dropped. */
  lemma {:induction false} FilterRelevantCounts(tweets: seq<JobRecord>, cfg: FilterConfig, x: JobRecord)
    ensures multiset(FilterRelevant(tweets, cfg))[x] == if IsRelevant(x.text, cfg) then multiset(tweets)[x] else 0
    decreases |tweets|
  {
    if |tweets| > 0 {
      FilterRelevantCounts(tweets[1..], cfg, x);
      assert tweets == [tweets[0]] + tweets[1..];
      assert multiset(tweets) == multiset([tweets[0]]) + multiset(tweets[1..]);
    }
  }

  /** Filtering one more record at the end extends the result by that record when it is relevant. */
  lemma {:induction false} FilterRelevantSnoc(tweets: seq<JobRecord>, x: JobRecord, cfg: FilterConfig)
    ensures FilterRelevant(tweets + [x], cfg) == FilterRelevant(tweets, cfg) + (if IsRelevant(x.text, cfg) then [x] else [])
    decreases |tweets|
  {
    if |tweets| == 0 {
      assert tweets + [x] == [x];
      assert [x][1..] == [];
    } else {
      assert (tweets + [x])[1..] == tweets[1..] + [x];
      FilterRelevantSnoc(tweets[1..], x, cfg);
    }
  }

  /** Filtering a prefix one record longer extends the result by that record when it is relevant. */
  lemma FilterRelevantStep(tweets: seq<JobRecord>, i: nat, cfg: FilterConfig)
    requires i < |tweets|
    ensures FilterRelevant(tweets[..i + 1], cfg) ==
      FilterRelevant(tweets[..i], cfg) + (if IsRelevant(tweets[i].text, cfg) then [tweets[i]] else [])
  {
    assert tweets[..i + 1] == tweets[..i] + [tweets[i]];
    FilterRelevantSnoc(tweets[..i], tweets[i], cfg);
  }

  /** `has_include and not has_exclude` for one tweet, scanning the lower-cased keyword lists. */
  method DecideRelevant(text: string, lowerInclude: seq<string>, lowerExclude: seq<string>, ghost cfg: FilterConfig)
    returns (keep: bool)
    requires lowerInclude == LowerAll(cfg.includeKeywords)
    requires lowerExclude == LowerAll(cfg.excludeKeywords)
    ensures keep == IsRelevant(text, cfg)
  {
    var textLower := Lower(text);
    var hasInclude := true;
    if |lowerInclude| > 0 {
      hasInclude := FindAny(textLower, lowerInclude);
    }
    var hasExclude := FindAny(textLower, lowerExclude);
    keep := hasInclude && !hasExclude;
  }

  /** The loop of `filter_relevant_jobs`, appending each relevant tweet to `relevant`. */
  method FilterRelevantJobs(tweets: seq<JobRecord>, cfg: FilterConfig) returns (relevant: seq<JobRecord>)
    ensures relevant == FilterRelevant(tweets, cfg)
  {
    var lowerInclude := LowerAll(cfg.includeKeywords);
    var lowerExclude := LowerAll(cfg.excludeKeywords);
    relevant := [];
    var i := 0;
    while i < |tweets|
      invariant 0 <= i <= |tweets|
      invariant relevant == FilterRelevant(tweets[..i], cfg)
    {
      var tweet := tweets[i];
      var keep := DecideRelevant(tweet.text, lowerInclude, lowerExclude, cfg);
      FilterRelevantStep(tweets, i, cfg);
      if keep {
        relevant := relevant + [tweet];
      }
      i := i + 1;
    }
    assert tweets[..|tweets|] == tweets;
  }

  /** A tweet containing an exclude keyword is dropped, whatever include keywords it also contains. */
  lemma ExcludeAlwaysWins(tweets: seq<JobRecord>, cfg: FilterConfig, x: JobRecord, j: int)
    requires 0 <= j < |cfg.excludeKeywords|
    requires Contains(Lower(x.text), Lower(cfg.excludeKeywords[j]))
    ensures x !in FilterRelevant(tweets, cfg)
  {
    assert LowerAll(cfg.excludeKeywords)[j] == Lower(cfg.excludeKeywords[j]);
  }

  /** With no include keywords, a tweet is kept exactly when it contains no exclude keyword. */
  lemma EmptyIncludeKeepsUnexcluded(tweets: seq<JobRecord>, cfg: FilterConfig, x: JobRecord)
    requires |cfg.includeKeywords| == 0
    requires x in tweets
    ensures x in FilterRelevant(tweets, cfg) <==>
      forall j :: 0 <= j < |cfg.excludeKeywords| ==> !Contains(Lower(x.text), Lower(cfg.excludeKeywords[j]))
  {
    var lowered := LowerAll(cfg.excludeKeywords);
    assert forall j :: 0 <= j < |cfg.excludeKeywords| ==> lowered[j] == Lower(cfg.excludeKeywords[j]);
    if x !in FilterRelevant(tweets, cfg) {
      var j :| 0 <= j < |lowered| && Contains(Lower(x.text), lowered[j]);
      assert Contains(Lower(x.text), Lower(cfg.excludeKeywords[j]));
    } else {
      assert !HasExclude(x.text, cfg.excludeKeywords);
    }
  }

  /** With include keywords, every kept tweet contains one of them, compared in lower case. */
  lemma KeptTweetMatchesInclude(tweets: seq<JobRecord>, cfg: FilterConfig, x: JobRecord)
    requires |cfg.includeKeywords| > 0
    requires x in FilterRelevant(tweets, cfg)
    ensures exists j :: 0 <= j < |cfg.includeKeywords| && Contains(Lower(x.text), Lower(cfg.includeKeywords[j]))
  {
    var j :| 0 <= j < |LowerAll(cfg.includeKeywords)| && Contains(Lower(x.text), LowerAll(cfg.includeKeywords)[j]);
    assert Contains(Lower(x.text), Lower(cfg.includeKeywords[j]));
  }

  /** A tweet that literally contains an include keyword and no exclude keyword is kept. */
  lemma LiteralIncludeIsKept(tweets: seq<JobRecord>, cfg: FilterConfig, x: JobRecord, j: int)
    requires x in tweets
    requires 0 <= j < |cfg.includeKeywords|
    requires Contains(x.text, cfg.includeKeywords[j])
    requires !HasExclude(x.text, cfg.excludeKeywords)
    ensures x in FilterRelevant(tweets, cfg)
  {
    ContainsLower(x.text, cfg.includeKeywords[j]);
    assert LowerAll(cfg.includeKeywords)[j] == Lower(cfg.includeKeywords[j]);
  }

  /** When no record is relevant, nothing is kept. */
  lemma {:induction false} NoneRelevant(tweets: seq<JobRecord>, cfg: FilterConfig)
    requires forall x :: x in tweets ==> !IsRelevant(x.text, cfg)
    ensures FilterRelevant(tweets, cfg) == []
    decreases |tweets|
  {
    if |tweets| > 0 {
      assert tweets[0] in tweets;
      assert forall x :: x in tweets[1..] ==> x in tweets;
      NoneRelevant(tweets[1..], cfg);
    }
  }

  /** The empty keyword occurs in every text: as an exclude keyword it rejects everything. */
  lemma EmptyExcludeRejectsAll(tweets: seq<JobRecord>, cfg: FilterConfig)
    requires "" in cfg.excludeKeywords
    ensures FilterRelevant(tweets, cfg) == []
  {
    var j :| 0 <= j < |cfg.excludeKeywords| && cfg.excludeKeywords[j] == "";
    assert LowerAll(cfg.excludeKeywords)[j] == "";
    forall x | x in tweets
      ensures !IsRelevant(x.text, cfg)
    {
      EmptyKeywordContained(Lower(x.text));
    }
    NoneRelevant(tweets, cfg);
  }

  /** The empty keyword as an include keyword lifts the include restriction. */
  lemma EmptyIncludeKeywordMatchesAll(text: string, cfg: FilterConfig)
    requires "" in cfg.includeKeywords
    ensures IsRelevant(text, cfg) <==> !HasExclude(text, cfg.excludeKeywords)
  {
    var j :| 0 <= j < |cfg.includeKeywords| && cfg.includeKeywords[j] == "";
    assert LowerAll(cfg.includeKeywords)[j] == "";
    EmptyKeywordContained(Lower(text));
  }

  /** Lower-casing every keyword of a list after upper-casing it gives the plain lower-cased list. */
  lemma LowerAllForgetsCase(ks: seq<string>)
    ensures LowerAll(UpperAll(ks)) == LowerAll(ks)
  {
    forall j | 0 <= j < |ks|
      ensures LowerAll(UpperAll(ks))[j] == LowerAll(ks)[j]
    {
      LowerForgetsCase(ks[j]);
    }
  }

  /** The decision ignores case in the tweet text and in each keyword list, alone or together. */
  lemma DecisionIgnoresCase(text: string, cfg: FilterConfig)
    ensures IsRelevant(Upper(text), cfg) == IsRelevant(text, cfg)
    ensures IsRelevant(text, FilterConfig(UpperAll(cfg.includeKeywords), cfg.excludeKeywords)) == IsRelevant(text, cfg)
    ensures IsRelevant(text, FilterConfig(cfg.includeKeywords, UpperAll(cfg.excludeKeywords))) == IsRelevant(text, cfg)
    ensures IsRelevant(text, FilterConfig(UpperAll(cfg.includeKeywords), UpperAll(cfg.excludeKeywords))) == IsRelevant(text, cfg)
  {
    LowerForgetsCase(text);
    LowerAllForgetsCase(cfg.includeKeywords);
    LowerAllForgetsCase(cfg.excludeKeywords);
  }

  /** A posting that names both an include and an exclude keyword is rejected. */
  lemma ExampleExcludeBeatsInclude()
    ensures !IsRelevant("Lagos fintech internship hiring", FilterConfig(["fintech"], ["internship"]))
  {
    var text := "Lagos fintech internship hiring";
    assert OccursAt(text, "internship", 14);
    ContainsLower(text, "internship");
    assert LowerAll(["internship"])[0] == Lower("internship");
  }

  /** Without include keywords, an exclude keyword in any case rejects and its absence accepts. */
  lemma ExampleEmptyInclude()
    ensures !IsRelevant("Remote React role, unpaid", FilterConfig([], ["unpaid"]))
    ensures IsRelevant("Remote React role", FilterConfig([], ["UNPAID"]))
  {
    var rejected := "Remote React role, unpaid";
    assert OccursAt(rejected, "unpaid", 19);
    ContainsLower(rejected, "unpaid");
    assert LowerAll(["unpaid"])[0] == Lower("unpaid");

    var kept := "Remote React role";
    assert forall i :: 0 <= i < |"UNPAID"| ==> Lower("UNPAID")[i] == "unpaid"[i];
    assert Lower("UNPAID") == "unpaid";
    assert LowerAll(["UNPAID"])[0] == "unpaid";
    assert forall i :: 0 <= i < |kept| ==> Lower(kept)[i] != 'u';
    AbsentFirstCharNotContained(Lower(kept), "unpaid");
  }
}
