/**
 * Episode records, the case-insensitive episode matcher (`find_episode`)
 * and the accumulation of paginated episode lists (`get_episodes`).
 */
module Episodes {
  import opened Wrappers
  import opened Text

  /** One entry of the series' episode list, as the remote service delivers it. */
  datatype Episode = Episode(seasonNumber: int, number: int, name: string)

  /** The episode's name equals the token, ignoring letter case. */
  predicate NameMatches(ep: Episode, token: string) {
    Lower(ep.name) == Lower(token)
  }

  function FindFrom(token: string, episodes: seq<Episode>, from: nat): (r: Option<nat>)
    requires from <= |episodes|
    ensures r.Some? ==> from <= r.value < |episodes| && NameMatches(episodes[r.value], token)
    ensures r.Some? ==> forall j :: from <= j < r.value ==> !NameMatches(episodes[j], token)
    ensures r.None? ==> forall j :: from <= j < |episodes| ==> !NameMatches(episodes[j], token)
    decreases |episodes| - from
  {
    if from == |episodes| then None
    else if NameMatches(episodes[from], token) then Some(from)
    else FindFrom(token, episodes, from + 1)
  }

  /**
   * `find_episode`: the index (not the record) of the first episode whose
   * name matches the token, or `None` when no episode matches.
   */
  function FindEpisode(token: string, episodes: seq<Episode>): (r: Option<nat>)
    ensures r.Some? ==> r.value < |episodes| && NameMatches(episodes[r.value], token)
    ensures r.Some? ==> forall j :: 0 <= j < r.value ==> !NameMatches(episodes[j], token)
    ensures r.None? <==> forall j :: 0 <= j < |episodes| ==> !NameMatches(episodes[j], token)
  {
    FindFrom(token, episodes, 0)
  }

  /** Python truthiness of the matcher's result: `None` and index 0 are both false. */
  predicate Truthy(found: Option<nat>) {
    found.Some? && found.value != 0
  }

  /** Tokens that agree after lower-casing find the same episode. */
  lemma FindEpisodeCaseInsensitive(t1: string, t2: string, episodes: seq<Episode>)
    requires Lower(t1) == Lower(t2)
    ensures FindEpisode(t1, episodes) == FindEpisode(t2, episodes)
  {
    var r1, r2 := FindEpisode(t1, episodes), FindEpisode(t2, episodes);
    assert forall j :: 0 <= j < |episodes| ==> NameMatches(episodes[j], t1) == NameMatches(episodes[j], t2);
    if r1.Some? && r2.Some? {
      assert !(r1.value < r2.value) && !(r2.value < r1.value);
    }
  }

  /** Lower-casing the token never changes which episode is found. */
  lemma FindEpisodeIgnoresCase(token: string, episodes: seq<Episode>)
    ensures FindEpisode(Lower(token), episodes) == FindEpisode(token, episodes)
  {
    LowerIdempotent(token);
    FindEpisodeCaseInsensitive(Lower(token), token, episodes);
  }

  /** One response of the paginated episode endpoint: a batch and the link to the next page. */
  datatype Page = Page(episodes: seq<Episode>, next: Option<string>)

  /** `links.next` is truthy: present and not the empty string. */
  predicate HasNext(page: Page) {
    page.next.Some? && page.next.value != ""
  }

  /** The batches of `pages`, concatenated in order. */
  function Concat(pages: seq<Page>): seq<Episode> {
    if pages == [] then [] else Concat(pages[..|pages| - 1]) + pages[|pages| - 1].episodes
  }

  /** The total number of records in `pages`. */
  function TotalCount(pages: seq<Page>): nat {
    if pages == [] then 0 else |pages[0].episodes| + TotalCount(pages[1..])
  }

  /** Concatenation distributes over splitting the page sequence. */
  lemma {:induction false} ConcatAppend(a: seq<Page>, b: seq<Page>)
    ensures Concat(a + b) == Concat(a) + Concat(b)
    decreases |b|
  {
    if b != [] {
      var b' := b[..|b| - 1];
      assert (a + b)[..|a + b| - 1] == a + b';
      ConcatAppend(a, b');
    } else {
      assert a + b == a;
    }
  }

  /** No record is dropped: the result holds exactly as many records as the pages. */
  lemma {:induction false} ConcatCount(pages: seq<Page>)
    ensures |Concat(pages)| == TotalCount(pages)
    decreases |pages|
  {
    if pages != [] {
      ConcatAppend([pages[0]], pages[1..]);
      assert [pages[0]] + pages[1..] == pages;
      assert [pages[0]][..0] == [];
      ConcatCount(pages[1..]);
    }
  }

  /**
   * `get_episodes` after the series lookup: request pages while the current
   * link is truthy, appending each batch. `responses` are the pages the
   * service returns, in request order; `fetched` is how many were requested.
   */
  method GetEpisodes(responses: seq<Page>) returns (episodes: seq<Episode>, fetched: nat)
    requires exists k :: 0 <= k < |responses| && !HasNext(responses[k])
    ensures 1 <= fetched <= |responses|
    ensures !HasNext(responses[fetched - 1])
    ensures forall j :: 0 <= j < fetched - 1 ==> HasNext(responses[j])
    ensures episodes == Concat(responses[..fetched])
  {
    ghost var stop :| 0 <= stop < |responses| && !HasNext(responses[stop]);
    episodes, fetched := [], 0;
    var more := true;  // the first page's link is never empty
    while more
      invariant fetched <= |responses|
      invariant more ==> fetched <= stop
      invariant more ==> forall j :: 0 <= j < fetched ==> HasNext(responses[j])
      invariant !more ==> 1 <= fetched && !HasNext(responses[fetched - 1])
      invariant !more ==> forall j :: 0 <= j < fetched - 1 ==> HasNext(responses[j])
      invariant episodes == Concat(responses[..fetched])
      decreases |responses| - fetched, more
    {
      var page := responses[fetched];
      assert responses[..fetched + 1][..fetched] == responses[..fetched];
      episodes := episodes + page.episodes;
      fetched := fetched + 1;
      more := HasNext(page);
    }
  }
}
