/** The pure part of the feed getter: the key each configured source is
    checkpointed under, the tab-separated checkpoint file, the cutoff and
    per-source post filters, the reading of a feed response, and the merge
    of one round's posts into the checkpoints.

    Time is an `Instant` in nanoseconds since the epoch. Instant.parse and
    Instant.toString, java.net.URI's syntax check and the HTTP responses
    are parameters. */
module FeedGetter {
  import opened Results
  import opened JavaChars
  import opened Json
  import opened Bsky

  /** java.time.Instant as nanoseconds since the epoch. */
  type Instant = int

  const NanosPerSecond: int := 1_000_000_000

  /** Instant.MIN, the start of the year -1000000000. */
  const InstantMin: Instant := -31_557_014_167_219_200 * NanosPerSecond

  /** ChronoUnit.HALF_DAYS. */
  const HalfDay: int := 12 * 60 * 60 * NanosPerSecond

  // ---------------------------------------------------------------------
  // Sources

  datatype PostSource =
    | User(userDid: string, includeRetweets: bool, includeNoEmbed: bool)
    | Feed(userDid: string, feedKey: string)

  const FeedInfix: string := "/app.bsky.feed.generator/"

  /** The key a source's checkpoint is stored under. */
  function UniqueKey(s: PostSource): string {
    match s
    case User(did, _, _) => did
    case Feed(did, key) => did + FeedInfix + key
  }

  // ---------------------------------------------------------------------
  // The checkpoint file

  /** The checkpoints: the newest post time seen per source key. */
  type Checkpoints = map<string, Instant>

  /** `order` lists every key of `m` exactly once: the iteration order of
      the source's HashMap, which the model leaves open. */
  predicate Enumerates(order: seq<string>, m: Checkpoints) {
    && (forall i :: 0 <= i < |order| ==> order[i] in m)
    && (forall k :: k in m ==> k in order)
    && (forall i, j :: 0 <= i < j < |order| ==> order[i] != order[j])
  }

  /** One written line without its newline: the key, a tab, the instant. */
  function Body(key: string, t: Instant, show: Instant -> string): string {
    key + "\t" + show(t)
  }

  /** The lines written for the keys in `order`, each ending in a newline. */
  function WriteLines(m: Checkpoints, order: seq<string>, show: Instant -> string): (r: string)
    requires forall i :: 0 <= i < |order| ==> order[i] in m
    ensures |order| == 0 <==> r == []
  {
    if |order| == 0 then []
    else Body(order[0], m[order[0]], show) + "\n" + WriteLines(m, order[1..], show)
  }

  /** writeState, without the file: one `key\tinstant\n` line per entry. */
  function WriteState(m: Checkpoints, order: seq<string>, show: Instant -> string): string
    requires Enumerates(order, m)
  {
    WriteLines(m, order, show)
  }

  /** The tab-separated fields of a line, as String.split gives them. */
  function Fields(line: string): seq<string> {
    JavaSplit(line, '\t')
  }

  /** A line readState keeps: exactly two tab fields. */
  predicate IsEntry(line: string) {
    |Fields(line)| == 2
  }

  /** The lines after the first `from` read into `acc`, in order: a line
      that is not an entry is skipped, an entry's instant is parsed, and a
      key already read is Collectors.toMap's duplicate-key error. */
  function Collect(lines: seq<string>, parse: string -> Result<Instant>, acc: Checkpoints): (r: Result<Checkpoints>)
    ensures r.Success? ==> forall k :: k in acc ==> k in r.value && r.value[k] == acc[k]
    ensures r.Success? ==> forall i :: 0 <= i < |lines| && IsEntry(lines[i]) ==>
      Fields(lines[i])[0] in r.value && parse(Fields(lines[i])[1]) == Success(r.value[Fields(lines[i])[0]])
    ensures r.Success? ==> forall k :: k in r.value ==> k in acc || exists i :: 0 <= i < |lines| && IsEntry(lines[i]) && Fields(lines[i])[0] == k
    decreases |lines|
  {
    if |lines| == 0 then Success(acc)
    else if !IsEntry(lines[0]) then
      var r := Collect(lines[1..], parse, acc);
      assert r.Success? ==> forall i :: 1 <= i < |lines| ==> lines[i] == lines[1..][i - 1];
      r
    else
      var kv := Fields(lines[0]);
      var t :- parse(kv[1]);
      if kv[0] in acc then Failure(IllegalState("Duplicate key " + kv[0]))
      else
        var r := Collect(lines[1..], parse, acc[kv[0] := t]);
        assert r.Success? ==> forall i :: 1 <= i < |lines| ==> lines[i] == lines[1..][i - 1];
        r
  }

  /** readState: a missing file is no checkpoints; otherwise the lines of
      the file, as String.split gives them, collected into a map. */
  function ReadState(file: Option<string>, parse: string -> Result<Instant>): (r: Result<Checkpoints>)
    ensures file.None? ==> r == Success(map[])
  {
    match file
    case None => Success(map[])
    case Some(text) => Collect(JavaSplit(text, '\n'), parse, map[])
  }

  // ---------------------------------------------------------------------
  // Cutoff and source filters

  /** The instant a source's posts must be newer than: its checkpoint, or
      twelve hours before `now` when it has none. */
  function Cutoff(state: Checkpoints, source: PostSource, now: Instant): Instant {
    if UniqueKey(source) in state then state[UniqueKey(source)] else now - HalfDay
  }

  /** A post as the feed reader builds it. */
  datatype FeedPost = FeedPost(uri: string, createdAt: Instant, reason: Option<string>, hasEmbeds: bool)

  /** The predicate getPosts hands to parseFeed: newer than the cutoff, and
      for a user's own feed, not a repost unless reposts are included and
      with an embed unless embed-less posts are included. */
  predicate Keeps(source: PostSource, cutoff: Instant, p: FeedPost) {
    match source
    case Feed(_, _) => p.createdAt > cutoff
    case User(_, includeRetweets, includeNoEmbed) =>
      && p.createdAt > cutoff
      && (includeRetweets || p.reason != Some(ReasonRepost))
      && (includeNoEmbed || p.hasEmbeds)
  }

  // ---------------------------------------------------------------------
  // Reading a feed response

  /** Whether an entry's record has an embed that counts: one whose
      `$type` is not a link card or a quoted record. */
  function HasEmbeds(record: Json): (r: Result<bool>)
    requires record.JObject?
    ensures !Has(record, "embed") ==> r == Success(false)
  {
    if !Has(record, "embed") then Success(false)
    else
      var embed :- GetObject(record, "embed");
      var typ :- Get(embed, "$type");
      var name :- GetAsString(typ);
      Success(name !in NotEmbeds)
  }

  /** A feed entry the reader looks at: an object whose `post` member is an
      object. */
  predicate IsPostEntry(e: Json) {
    Has(e, "post") && Lookup(e.members, "post").value.JObject?
  }

  /** Whether the entry's record is a post; a missing record or `$type`
      is an exception. */
  function IsPostRecord(e: Json): Result<bool>
    requires IsPostEntry(e)
  {
    var post := Lookup(e.members, "post").value;
    var record :- GetObject(post, "record");
    var typ :- Get(record, "$type");
    var name :- GetAsString(typ);
    Success(name == PostType)
  }

  /** The post an entry describes. An invalid URI makes the entry vanish;
      every other fault is an exception out of the reader. */
  function EntryPost(e: Json, validUri: string -> bool, parse: string -> Result<Instant>): (r: Result<Option<FeedPost>>)
    requires IsPostEntry(e)
    ensures r.Success? && r.value.Some? ==> validUri(r.value.value.uri)
  {
    var post := Lookup(e.members, "post").value;
    var record :- GetObject(post, "record");
    var created :- Get(record, "createdAt");
    var createdText :- GetAsString(created);
    var createdAt :- parse(createdText);
    var uriNode :- Get(post, "uri");
    var uri :- GetAsString(uriNode);
    var reason :- EntryReason(e);
    if !validUri(uri) then Success(None)
    else
      var embeds :- HasEmbeds(record);
      Success(Some(FeedPost(uri, createdAt, reason, embeds)))
  }

  /** The `$type` of an entry's reason, if it has one. */
  function EntryReason(e: Json): (r: Result<Option<string>>)
    requires e.JObject?
    ensures !Has(e, "reason") ==> r == Success(None)
  {
    if !Has(e, "reason") then Success(None)
    else
      var reason :- GetObject(e, "reason");
      var typ :- Get(reason, "$type");
      var name :- GetAsString(typ);
      Success(Some(name))
  }

  /** What one element of the feed array yields: nothing unless it is an
      object with a `post` object whose record is a post, and otherwise
      the entry's post. */
  function EntryResult(e: Json, validUri: string -> bool, parse: string -> Result<Instant>): (r: Result<Option<FeedPost>>)
    ensures !e.JObject? || !IsPostEntry(e) ==> r == Success(None)
    ensures r.Success? && r.value.Some? ==> validUri(r.value.value.uri)
  {
    if !e.JObject? || !IsPostEntry(e) then Success(None)
    else
      var isPost :- IsPostRecord(e);
      if !isPost then Success(None) else EntryPost(e, validUri, parse)
  }

  /** The posts of a feed array the reader keeps, in order; the first
      exception wins. */
  function SelectPosts(entries: seq<Json>, validUri: string -> bool, parse: string -> Result<Instant>,
                       keep: FeedPost -> bool): (r: Result<seq<FeedPost>>)
    ensures r.Success? ==> |r.value| <= |entries|
    ensures r.Success? ==> forall i :: 0 <= i < |r.value| ==> keep(r.value[i]) && validUri(r.value[i].uri)
    decreases |entries|
  {
    if |entries| == 0 then Success([])
    else
      var p :- EntryResult(entries[0], validUri, parse);
      var rest :- SelectPosts(entries[1..], validUri, parse, keep);
      if p.Some? && keep(p.value) then Success([p.value] + rest) else Success(rest)
  }

  /** parseFeed: nothing unless the response is an object whose `feed`
      member is an array; otherwise the kept posts of that array. */
  function ParseFeed(response: Option<Json>, validUri: string -> bool, parse: string -> Result<Instant>,
                     keep: FeedPost -> bool): (r: Result<seq<FeedPost>>)
    ensures response.None? ==> r == Success([])
    ensures response.Some? && !Has(response.value, "feed") ==> r == Success([])
    ensures r.Success? ==> forall i :: 0 <= i < |r.value| ==> keep(r.value[i])
  {
    if response.None? || !Has(response.value, "feed") then Success([])
    else
      var feed := Lookup(response.value.members, "feed").value;
      if !feed.JArray? then Success([])
      else SelectPosts(feed.elems, validUri, parse, keep)
  }

  // ---------------------------------------------------------------------
  // Merging a round into the checkpoints

  /** The newest of the posts' times, starting from `from`; a post replaces
      the running value only when strictly later. */
  function LatestFrom(ps: seq<FeedPost>, from: Instant): (r: Instant)
    ensures from <= r
    ensures forall i :: 0 <= i < |ps| ==> ps[i].createdAt <= r
    ensures r == from || exists i :: 0 <= i < |ps| && ps[i].createdAt == r
    decreases |ps|
  {
    if |ps| == 0 then from
    else
      var next := if ps[0].createdAt > from then ps[0].createdAt else from;
      var r := LatestFrom(ps[1..], next);
      assert forall i :: 1 <= i < |ps| ==> ps[i] == ps[1..][i - 1];
      r
  }

  /** The newest post time of one source's batch, from Instant.MIN. */
  function Latest(ps: seq<FeedPost>): Instant {
    LatestFrom(ps, InstantMin)
  }

  /** Map.compute on one key: the newer of the stored value and `latest`,
      or `latest` when none is stored. */
  function Advance(state: Checkpoints, key: string, latest: Instant): (r: Checkpoints)
    ensures r.Keys == state.Keys + {key}
    ensures forall k :: k in state && k != key ==> r[k] == state[k]
  {
    state[key := if key !in state || state[key] < latest then latest else state[key]]
  }

  /** The checkpoints after each source's batch has been merged, in source
      order. */
  function MergeAll(state: Checkpoints, sources: seq<PostSource>, batches: seq<seq<FeedPost>>): Checkpoints
    requires |sources| == |batches|
    decreases |sources|
  {
    if |sources| == 0 then state
    else MergeAll(Advance(state, UniqueKey(sources[0]), Latest(batches[0])), sources[1..], batches[1..])
  }

  /** Whether `a` comes no later than `b`. */
  predicate InOrder(a: FeedPost, b: FeedPost) {
    a.createdAt <= b.createdAt
  }

  predicate SortedByTime(ps: seq<FeedPost>) {
    forall i, j :: 0 <= i < j < |ps| ==> InOrder(ps[i], ps[j])
  }

  /** `p` placed into a time-ordered sequence after every post no later
      than it. */
  function Insert(sorted: seq<FeedPost>, p: FeedPost): (r: seq<FeedPost>)
    ensures |r| == |sorted| + 1
    ensures multiset(r) == multiset(sorted) + multiset{p}
    ensures forall i :: 0 <= i < |r| ==> r[i] == p || r[i] in sorted
    decreases |sorted|
  {
    if |sorted| == 0 then [p]
    else if p.createdAt < sorted[0].createdAt then [p] + sorted
    else
      var r := [sorted[0]] + Insert(sorted[1..], p);
      assert sorted == [sorted[0]] + sorted[1..];
      r
  }

  /** List.sort with Comparator.comparing(Post::createdAt): a stable sort
      by time, as an insertion sort. */
  function SortByTime(ps: seq<FeedPost>): (r: seq<FeedPost>)
    ensures |r| == |ps|
    ensures multiset(r) == multiset(ps)
    decreases |ps|
  {
    if |ps| == 0 then []
    else
      var r := Insert(SortByTime(ps[..|ps| - 1]), ps[|ps| - 1]);
      assert ps == ps[..|ps| - 1] + [ps[|ps| - 1]];
      r
  }

  /** All batches' posts in source order. */
  function Concat(batches: seq<seq<FeedPost>>): seq<FeedPost> {
    if |batches| == 0 then [] else batches[0] + Concat(batches[1..])
  }

  /** The result of one round of run, given each source's batch: the
      merged checkpoints and every post, ordered by time. */
  datatype Round = Round(state: Checkpoints, posts: seq<FeedPost>)

  function RunRound(state: Checkpoints, sources: seq<PostSource>, batches: seq<seq<FeedPost>>): Round
    requires |sources| == |batches|
  {
    Round(MergeAll(state, sources, batches), SortByTime(Concat(batches)))
  }
}
