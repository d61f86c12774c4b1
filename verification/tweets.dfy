/**
  The search side of the bot: what the search API answers, and how one answer
  becomes the list of job records handed to the filter. The API itself is a
  function parameter of the run; this module only reads its answer.
*/
module Tweets {
  import opened Optional
  import opened Seqs
  import opened Text
  import opened Decimal

  /** An author as the API expands it: numeric id, display name and handle. */
  datatype User = User(id: int, name: string, username: string)

  /** The two public counters the bot reports. */
  datatype Metrics = Metrics(likeCount: int, retweetCount: int)

  /**
    One tweet of the API's `data` list. `createdAt` is an abstract timestamp;
    `metrics` is `None` when `public_metrics` is missing or empty.
  */
  datatype ApiTweet = ApiTweet(id: int, text: string, createdAt: int, authorId: int, metrics: Option<Metrics>)

  /**
    The outcome of one `search_recent_tweets` call: either it raised, or it
    returned a `data` list (possibly absent) and an `includes.users` list
    (possibly absent).
  */
  datatype SearchResponse =
    | SearchError
    | SearchOk(data: Option<seq<ApiTweet>>, includedUsers: Option<seq<User>>)

  /** The dictionary the bot builds for each new tweet. */
  datatype JobRecord = JobRecord(
    id: int,
    text: string,
    createdAt: int,
    authorName: string,
    authorUsername: string,
    url: Option<string>,
    likes: int,
    retweets: int)

  const UnknownName: string := "Unknown"
  const UnknownUsername: string := "unknown"
  const StatusHost: string := "https://twitter.com/"

  /** Separator of the single search query. */
  const QuerySeparator: string := " OR "

  /**
    The single search query: the keywords in their given order, with ` OR `
    between consecutive keywords and nothing else.
  */
  function BuildQuery(keywords: seq<string>): (q: string)
    ensures |keywords| == 0 ==> q == ""
    ensures |keywords| > 0 ==> |q| == TotalLength(keywords) + 4 * (|keywords| - 1)
    ensures forall j :: 0 <= j < |keywords| ==> OccursAt(q, keywords[j], Offset(keywords, QuerySeparator, j))
    ensures forall j :: 0 <= j < |keywords| - 1 ==> OccursAt(q, " OR ", Offset(keywords, QuerySeparator, j) + |keywords[j]|)
    ensures forall j :: 0 <= j < |keywords| ==> Contains(q, keywords[j])
  {
    Join(keywords, QuerySeparator)
  }

  /** Two hashtags make the query `#hiring OR #RemoteJobs`. */
  lemma ExampleQuery()
    ensures BuildQuery(["#hiring", "#RemoteJobs"]) == "#hiring OR #RemoteJobs"
  {
  }

  /** `{user.id: user for user in users}`: a later user with the same id replaces an earlier one. */
  function UserIndex(users: seq<User>): (m: map<int, User>)
    ensures IndexesUsers(m, users)
  {
    if |users| == 0 then map[]
    else
      var m := UserIndex(users[..|users| - 1]);
      UserIndexExtend(users, m);
      m[users[|users| - 1].id := users[|users| - 1]]
  }

  /** `m` has a key exactly for each user id, and maps it to the last user with that id. */
  ghost predicate IndexesUsers(m: map<int, User>, users: seq<User>)
  {
    && (forall id :: id in m <==> exists i :: 0 <= i < |users| && users[i].id == id)
    && (forall id :: id in m ==> exists i :: 0 <= i < |users| && users[i].id == id && users[i] == m[id] && IsLastWithId(users, i))
  }

  /** Adding the last user to the index of the others indexes all of them. */
  lemma UserIndexExtend(users: seq<User>, m: map<int, User>)
    requires |users| > 0
    requires IndexesUsers(m, users[..|users| - 1])
    ensures IndexesUsers(m[users[|users| - 1].id := users[|users| - 1]], users)
  {
    var front := users[..|users| - 1];
    var n := |users| - 1;
    var u := users[n];
    var m' := m[u.id := u];
    forall id
      ensures id in m' <==> exists i :: 0 <= i < |users| && users[i].id == id
    {
      if id in m && id != u.id {
        var i :| 0 <= i < |front| && front[i].id == id;
        assert users[i].id == id;
      }
      if exists i :: 0 <= i < |users| && users[i].id == id {
        var i :| 0 <= i < |users| && users[i].id == id;
        if i < n {
          assert front[i].id == id;
        }
      }
    }
    forall id | id in m'
      ensures exists i :: 0 <= i < |users| && users[i].id == id && users[i] == m'[id] && IsLastWithId(users, i)
    {
      if id == u.id {
        assert users[n] == m'[id] && IsLastWithId(users, n);
      } else {
        var i :| 0 <= i < |front| && front[i].id == id && front[i] == m[id] && IsLastWithId(front, i);
        assert users[i] == m'[id];
        assert IsLastWithId(users, i);
      }
    }
  }

  /** No user after position `i` has the id of `users[i]`. */
  predicate IsLastWithId(users: seq<User>, i: int)
    requires 0 <= i < |users|
  {
    forall j :: i < j < |users| ==> users[j].id != users[i].id
  }

  /** The author lookup of a response: empty when `includes.users` is absent. */
  function UsersOf(resp: SearchResponse): map<int, User>
  {
    if resp.SearchOk? && resp.includedUsers.Some? then UserIndex(resp.includedUsers.value) else map[]
  }

  /** The tweets of a response: none when the call raised or `data` is absent or empty. */
  function DataOf(resp: SearchResponse): seq<ApiTweet>
  {
    if resp.SearchOk? && resp.data.Some? then resp.data.value else []
  }

  /** The status link `https://twitter.com/{username}/status/{id}`. */
  function StatusUrl(username: string, id: int): string
  {
    StatusHost + username + "/status/" + DecimalString(id)
  }

  /** The part of a path after its last `/` (the whole string when there is none). */
  function LastSegment(s: string): (r: string)
    ensures '/' !in r
    ensures |r| <= |s|
  {
    if |s| == 0 || s[|s| - 1] == '/' then []
    else LastSegment(s[..|s| - 1]) + [s[|s| - 1]]
  }

  /** Reads the tweet id back out of a status link. */
  function StatusIdOf(url: string): Option<int>
  {
    ParseDecimal(LastSegment(url))
  }

  /** Appending a slash-free tail after a slash makes that tail the last segment. */
  lemma {:induction false} LastSegmentAfterSlash(a: string, b: string)
    requires '/' !in b
    ensures LastSegment(a + "/" + b) == b
    decreases |b|
  {
    if |b| == 0 {
      assert a + "/" + b == a + "/";
    } else {
      var front := b[..|b| - 1];
      assert (a + "/" + b)[..|a + "/" + b| - 1] == a + "/" + front;
      LastSegmentAfterSlash(a, front);
      assert front + [b[|b| - 1]] == b;
    }
  }

  /** The id of a tweet can be read back from its status link, whatever the username. */
  lemma StatusUrlRoundTrip(username: string, id: int)
    ensures StatusIdOf(StatusUrl(username, id)) == Some(id)
  {
    var a := StatusHost + username + "/status";
    assert StatusUrl(username, id) == a + "/" + DecimalString(id);
    LastSegmentAfterSlash(a, DecimalString(id));
    ParseDecimalString(id);
  }

  /**
    The record built for one tweet. Without an author the name and handle
    fall back to placeholders and there is no link; without metrics both
    counters are 0.
  */
  function ToRecord(t: ApiTweet, users: map<int, User>): (r: JobRecord)
    ensures r.id == t.id && r.text == t.text && r.createdAt == t.createdAt
    ensures t.authorId !in users ==> r.authorName == "Unknown" && r.authorUsername == "unknown" && r.url == None
    ensures t.authorId in users ==>
      && r.authorName == users[t.authorId].name
      && r.authorUsername == users[t.authorId].username
      && r.url == Some(StatusUrl(users[t.authorId].username, t.id))
    ensures r.url.Some? ==> StatusIdOf(r.url.value) == Some(t.id)
    ensures t.metrics == None ==> r.likes == 0 && r.retweets == 0
    ensures t.metrics.Some? ==> r.likes == t.metrics.value.likeCount && r.retweets == t.metrics.value.retweetCount
  {
    var likes := if t.metrics.Some? then t.metrics.value.likeCount else 0;
    var retweets := if t.metrics.Some? then t.metrics.value.retweetCount else 0;
    if t.authorId in users then
      var author := users[t.authorId];
      StatusUrlRoundTrip(author.username, t.id);
      JobRecord(t.id, t.text, t.createdAt, author.name, author.username,
                Some(StatusUrl(author.username, t.id)), likes, retweets)
    else
      JobRecord(t.id, t.text, t.createdAt, UnknownName, UnknownUsername, None, likes, retweets)
  }

  /** The record of every tweet, posted or not: the reference order for the search loop. */
  function AllRecords(data: seq<ApiTweet>, users: map<int, User>): (r: seq<JobRecord>)
    ensures |r| == |data|
    ensures forall i :: 0 <= i < |data| ==> r[i] == ToRecord(data[i], users)
  {
    seq(|data|, i requires 0 <= i < |data| => ToRecord(data[i], users))
  }

  /** The number of tweets whose id is not yet posted. */
  function CountUnposted(data: seq<ApiTweet>, posted: set<int>): nat
  {
    if |data| == 0 then 0
    else (if data[0].id in posted then 0 else 1) + CountUnposted(data[1..], posted)
  }

  /** The loop over `tweets.data`: skip posted ids, build a record for the rest. */
  function CollectNew(data: seq<ApiTweet>, users: map<int, User>, posted: set<int>): (r: seq<JobRecord>)
    ensures forall x :: x in r ==> x.id !in posted
    ensures forall x :: x in r ==> exists i :: 0 <= i < |data| && data[i].id !in posted && x == ToRecord(data[i], users)
    ensures forall i :: 0 <= i < |data| && data[i].id !in posted ==> ToRecord(data[i], users) in r
    ensures Subsequence(r, AllRecords(data, users))
    ensures |r| == CountUnposted(data, posted)
  {
    if |data| == 0 then []
    else
      var rest := CollectNew(data[1..], users, posted);
      assert AllRecords(data, users)[1..] == AllRecords(data[1..], users);
      assert forall i :: 1 <= i < |data| ==> data[i] == data[1..][i - 1];
      if data[0].id in posted then
        assert Subsequence(rest, AllRecords(data, users)) by {
          if |rest| > 0 {
            assert Subsequence(rest, AllRecords(data, users)[1..]);
          }
        }
        rest
      else
        var r := [ToRecord(data[0], users)] + rest;
        assert r[1..] == rest;
        assert forall x :: x in rest ==> x in r;
        r
  }

  /**
    `search_jobs` after the API call: the new tweets' records in API order,
    or nothing when the call raised or returned no data.
  */
  function SearchJobs(resp: SearchResponse, posted: set<int>): (r: seq<JobRecord>)
    ensures forall x :: x in r ==> x.id !in posted
    ensures resp.SearchError? ==> r == []
    ensures forall x :: x in r ==> exists i :: 0 <= i < |DataOf(resp)| && DataOf(resp)[i].id !in posted && x == ToRecord(DataOf(resp)[i], UsersOf(resp))
    ensures forall i :: 0 <= i < |DataOf(resp)| && DataOf(resp)[i].id !in posted ==> ToRecord(DataOf(resp)[i], UsersOf(resp)) in r
    ensures Subsequence(r, AllRecords(DataOf(resp), UsersOf(resp)))
    ensures |r| == CountUnposted(DataOf(resp), posted)
  {
    var data := DataOf(resp);
    if |data| == 0 then [] else CollectNew(data, UsersOf(resp), posted)
  }

  /** The id of a record, as a key function. */
  function RecordId(x: JobRecord): int
  {
    x.id
  }

  /** The id of an API tweet, as a key function. */
  function TweetId(t: ApiTweet): int
  {
    t.id
  }

  /** When the API lists every tweet once, the search returns every record once. */
  lemma SearchJobsDistinct(resp: SearchResponse, posted: set<int>)
    requires DistinctBy(DataOf(resp), TweetId)
    ensures DistinctBy(SearchJobs(resp, posted), RecordId)
  {
    var all := AllRecords(DataOf(resp), UsersOf(resp));
    assert DistinctBy(all, RecordId) by {
      forall i, j | 0 <= i < j < |all|
        ensures RecordId(all[i]) != RecordId(all[j])
      {
        assert TweetId(DataOf(resp)[i]) != TweetId(DataOf(resp)[j]);
      }
    }
    SubsequenceDistinctBy(SearchJobs(resp, posted), all, RecordId);
  }
}
