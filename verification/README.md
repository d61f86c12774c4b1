# Twitter-to-Slack job bot: the job-selection pipeline

A Dafny model of the selection pipeline of `TwitterJobBot` (`twitter_to_slack_jobs.py`).
One run does the following:

1. It sends one search query: all keywords joined with ` OR `.
2. It turns every returned tweet whose id is not in the posted set into a job record, keeping the API's order. An author that was not expanded gets placeholders; missing metrics count as 0.
3. It keeps the records whose lower-cased text contains an include keyword (any record, when the include list is empty) and no exclude keyword. Exclusion always wins.
4. It posts each kept record to Slack. The description is cut to 500 characters, with `...` added only when the text is longer than 500 characters.
5. It adds the id of every record whose post succeeded to the posted set and counts the successes.
6. If the search brought nothing new, it stops before filtering and does not save the posted set.

Modules, one per component:

- `Optional`: `Option`.
- `Seqs`: order-preserving subsequences and distinct keys.
- `Text`: ASCII case mapping, the substring test `k in s`, `sep.join`.
- `Decimal`: `str(n)` for integers and its parser.
- `Tweets`: API records, the author lookup, record building, the search loop.
- `Filter`: the include/exclude filter.
- `Slack`: the truncated description.
- `Bot`: the posting loop and `run`.

External collaborators are modelled as inputs:

- The search API is a function parameter `search(query, max_results)`. `Run` calls it once.
- The webhook is an oracle `outcomes: seq<bool>`. Entry `i` is the result of post attempt `i`, and attempts past the end of the sequence fail.
- The posted-ids file is a plain `set<int>` that goes in and comes out. The `saved` flag of a run records whether the file would be rewritten.

Behaviour of the code worth stating, because a cleaner design would do otherwise:

- The bot sends one combined ` OR ` query, not one search per keyword.
- There is no deduplication across keywords or within the API's answer.
- Already-posted ids are dropped inside the search loop, before filtering.
- A search error is not isolated per keyword. The search returns nothing, and the run exits early.
- Loading the posted-ids file does not fail open: a corrupt file raises. This is outside the model; see "Left out".
- The early exit on "no new tweets" skips the save.

## Model

| member | source | states |
|---|---|---|
| `Text.FindSubstring` | twitter_to_slack_jobs.py:133-136 | the scan reports true exactly when the keyword occurs as a contiguous substring of the text (Python `k in s`) |
| `Text.FindAny` | twitter_to_slack_jobs.py:133-136 | `any(k in s for k in ks)` is true exactly when some keyword of the list occurs in the text |
| `Text.EmptyKeywordContained` | twitter_to_slack_jobs.py:133-136 | the empty keyword occurs in every text |
| `Text.ContainsLower` | twitter_to_slack_jobs.py:126-130 | a keyword that occurs in a text still occurs after both are lower-cased |
| `Text.LowerForgetsCase` | twitter_to_slack_jobs.py:126-130 | lower-casing forgets case: upper-casing first changes nothing, and lower-casing is idempotent |
| `Text.Join` | twitter_to_slack_jobs.py:67 | `sep.join(parts)` is the parts in their given order with the separator between consecutive parts and nothing else. Each part and each separator sits at its offset, and the length is the parts' total length plus one separator per gap. Every part is therefore a substring of the result |
| `Tweets.BuildQuery` | twitter_to_slack_jobs.py:67 | the single query is the keywords in order with ` OR ` between consecutive keywords. Its length is their total length plus 4 per gap, and it contains every keyword |
| `Tweets.ExampleQuery` | twitter_to_slack_jobs.py:67 | `#hiring` and `#RemoteJobs` give the query `#hiring OR #RemoteJobs` |
| `Tweets.UserIndex` | twitter_to_slack_jobs.py:84-86 | the author lookup has a key exactly for each included user id and maps it to the last user listed with that id |
| `Tweets.ToRecord` | twitter_to_slack_jobs.py:95-105 | id, text and time are copied. A missing author gives `Unknown`/`unknown` and no link; a present author gives its name, handle and the status link. Missing metrics give 0 likes and 0 retweets. Any link carries the tweet's id |
| `Tweets.StatusUrlRoundTrip` | twitter_to_slack_jobs.py:102 | the tweet id can be read back from `https://twitter.com/{username}/status/{id}`, whatever the username |
| `Decimal.ParseDecimalString` | twitter_to_slack_jobs.py:102 | the decimal form of an id, as written into the link, parses back to that id (negative ids included) |
| `Decimal.DecimalStringInjective` | twitter_to_slack_jobs.py:102 | distinct ids give distinct decimal forms, so distinct status links |
| `Tweets.CollectNew` | twitter_to_slack_jobs.py:89-107 | the loop returns no posted id. It returns the record of every unposted tweet and only those, as an order-preserving subsequence of all records, one per unposted tweet |
| `Tweets.SearchJobs` | twitter_to_slack_jobs.py:70-111 | the same as `Tweets.CollectNew`, where a raised search or an absent or empty `data` list yields no records |
| `Tweets.SearchJobsDistinct` | twitter_to_slack_jobs.py:89-105 | when the API lists each tweet once, the search returns each id at most once |
| `Filter.FilterRelevant` | twitter_to_slack_jobs.py:113-141 | the result is an order-preserving subsequence of the input, with records unchanged. It holds exactly the records that have an include match (or an empty include list) and no exclude match |
| `Filter.FilterRelevantCounts` | twitter_to_slack_jobs.py:129-139 | each relevant record is kept as often as it occurs in the input, and each irrelevant one never |
| `Filter.DecideRelevant` | twitter_to_slack_jobs.py:130-138 | the per-tweet computation `has_include and not has_exclude` over the lower-cased lists equals the filter's decision |
| `Filter.FilterRelevantJobs` | twitter_to_slack_jobs.py:124-141 | the appending loop returns exactly the filter's result |
| `Filter.ExcludeAlwaysWins` | twitter_to_slack_jobs.py:136-138 | a tweet with an exclude match is dropped, whatever include keywords it also contains |
| `Filter.EmptyIncludeKeepsUnexcluded` | twitter_to_slack_jobs.py:133-138 | with an empty include list, a tweet is kept exactly when no exclude keyword occurs in it, ignoring case |
| `Filter.KeptTweetMatchesInclude` | twitter_to_slack_jobs.py:126-133 | with a non-empty include list, every kept tweet contains some include keyword, ignoring case |
| `Filter.LiteralIncludeIsKept` | twitter_to_slack_jobs.py:126-138 | a tweet that contains an include keyword exactly as written, and no exclude keyword, is kept |
| `Filter.NoneRelevant` | twitter_to_slack_jobs.py:138-139 | when no input record is relevant, the result is empty |
| `Filter.EmptyExcludeRejectsAll` | twitter_to_slack_jobs.py:136-138 | an empty exclude keyword rejects every tweet |
| `Filter.EmptyIncludeKeywordMatchesAll` | twitter_to_slack_jobs.py:133 | an empty include keyword removes the include restriction |
| `Filter.DecisionIgnoresCase` | twitter_to_slack_jobs.py:126-130 | the decision is unchanged when the text is upper-cased, when the include list or the exclude list alone is upper-cased, and when both lists are upper-cased together |
| `Filter.ExampleExcludeBeatsInclude` | twitter_to_slack_jobs.py:136-138 | "Lagos fintech internship hiring" is rejected with include `fintech` and exclude `internship` |
| `Filter.ExampleEmptyInclude` | twitter_to_slack_jobs.py:133-138 | with no include keywords, "Remote React role, unpaid" is rejected by `unpaid`, and "Remote React role" passes even against `UNPAID` |
| `Slack.DescriptionBody` | twitter_to_slack_jobs.py:180 | the body has at most 503 characters. A text of at most 500 characters is shown whole; a longer one becomes its first 500 characters followed by `...` |
| `Slack.DescriptionField` | twitter_to_slack_jobs.py:180 | the section text is the `*Job Description:*` label line followed by the body |
| `Slack.DescriptionCollision` | twitter_to_slack_jobs.py:180 | two texts share a description exactly when they are equal, or both are longer than 500 characters and agree on the first 500 |
| `Slack.DescriptionFixedPoints` | twitter_to_slack_jobs.py:180 | the description is the text itself exactly when the text has at most 500 characters, or has 503 characters ending in `...` |
| `Bot.PostAll` | twitter_to_slack_jobs.py:256-260 | after the loop, the posted set is the old set plus the ids of the jobs whose post succeeded. The count equals the number of successful attempts and never exceeds the number of jobs |
| `Bot.Run` | twitter_to_slack_jobs.py:243-264 | the file is saved exactly when the search brought something new. The posted set becomes the old set plus the ids whose post succeeded. A failed post's id is not recorded when the API lists each tweet once (`Bot.FailedPostNotRecorded`). The count is the number of successes. Every attempted job has an unposted id. Without new tweets the set is unchanged and the count is 0 |
| `Bot.DistinctDeliveries` | twitter_to_slack_jobs.py:256-260 | with distinct ids, the number of delivered ids equals the number of successful posts |
| `Bot.PostAllGrowsByCount` | twitter_to_slack_jobs.py:256-260 | posting jobs whose ids are distinct and not yet posted grows the set by exactly the number of successful posts |
| `Bot.RunGrowsByPostedCount` | twitter_to_slack_jobs.py:256-264 | when the API lists each tweet once, a run grows the posted set by exactly `posted_count` |
| `Bot.FailedPostRetried` | twitter_to_slack_jobs.py:90-93 | a relevant job whose id is missing from a later posted set is attempted again by a run over the same search results with that set |
| `Bot.FailedPostNotRecorded` | twitter_to_slack_jobs.py:256-260 | when the API lists each tweet once, a job whose post failed is not in the posted set after the posting loop |
| `Bot.FailedPostRetriedNextRun` | twitter_to_slack_jobs.py:243-264 | when the API lists each tweet once, a job whose post failed in a run is left out of the set that run saves, and the next run over the same search results attempts it again |
| `Bot.NothingRelevantLeft` | twitter_to_slack_jobs.py:257-259 | once every relevant job of a search has been posted, nothing relevant and unposted is left in those results |
| `Bot.SecondRunIsIdle` | twitter_to_slack_jobs.py:243-264 | after a run in which every post succeeded, a second run over the same search results posts nothing and leaves the set as it was |

## Left out

- The Twitter client (`tweepy.Client`, `search_recent_tweets`, lines 34 and 71-77) is a foreign library reached over the network. Its answer is the `search` parameter. A raised exception is `SearchError`, and `max_results` is passed through uninterpreted.
- The webhook call (`requests.post` and the status-code check, lines 210-226) is network I/O. The `outcomes` oracle stands in for it.
- Loading and saving `posted_jobs.json` (lines 39-53) is file I/O. The set is an input and an output of `Run`. A corrupt file makes the real `json.load` raise, which the model does not represent.
- Credential and environment loading (lines 17, 23-28), `time.sleep` rate limiting (line 261), `print` logging and `datetime` formatting (lines 52, 172, 238) are side effects with no effect on the selection. `createdAt` is an opaque integer.
- The Slack block layout other than the description section (lines 154-208) is fixed presentation data.
- The keyword and filter constants in `main` (lines 270-364) are configuration. The model is stated for any keyword lists.
- Text.Lower: `str.lower` is Unicode-aware; the model lower-cases ASCII letters only and leaves every other character unchanged.
- Tweets.SearchJobs: an exception raised while building a record (a `public_metrics` dictionary without `like_count`, say) is not modelled. Metrics are either absent or complete. An empty metrics dictionary is falsy and counts as absent.
- Tweets.ApiTweet: ids are unbounded integers, and a missing `author_id` is not modelled separately. A missing `author_id` behaves like an author that is not in the lookup.
- Bot.FailedPostNotRecorded: when the API lists the same tweet twice and one copy's post fails while the other succeeds, the id is recorded, as in the code. The "failed posts are not recorded" promise is therefore stated for distinct tweet ids only.
- Filter.FilterConfig: a missing `include` or `exclude` key is modelled as an empty list, which is what `filters.get(..., [])` returns.
