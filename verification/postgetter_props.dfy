/** Properties of the feed getter: source keys identify their source, the
    checkpoint file reads back what was written, a round's posts are never
    fetched again, checkpoints only move forward, the output is a stable
    sort by time, and a feed response built from posts reads back as the
    posts the source keeps. */
module FeedGetterProperties {
  import opened Results
  import opened JavaChars
  import opened Json
  import opened Bsky
  import opened FeedGetter

  // ---------------------------------------------------------------------
  // Source keys

  /** The index of the first `/` in `s`, or `|s|` when there is none. */
  function FirstSlash(s: string): (r: nat)
    ensures r <= |s|
  {
    if |s| == 0 || s[0] == '/' then 0 else 1 + FirstSlash(s[1..])
  }

  lemma {:induction false} FirstSlashAfter(x: string, rest: string)
    requires '/' !in x && |rest| > 0 && rest[0] == '/'
    ensures FirstSlash(x + rest) == |x|
    decreases |x|
  {
    if |x| == 0 {
      assert x + rest == rest;
    } else {
      assert (x + rest)[0] == x[0] && (x + rest)[1..] == x[1..] + rest;
      FirstSlashAfter(x[1..], rest);
    }
  }

  /** A text with no `/` followed by the feed infix fixes the text. */
  lemma InfixSplitsAtFirstSlash(d1: string, d2: string, k1: string, k2: string)
    requires '/' !in d1 && '/' !in d2
    requires d1 + FeedInfix + k1 == d2 + FeedInfix + k2
    ensures d1 == d2 && k1 == k2
  {
    var s := d1 + FeedInfix + k1;
    FirstSlashAfter(d1, FeedInfix + k1);
    FirstSlashAfter(d2, FeedInfix + k2);
    assert d1 + FeedInfix + k1 == d1 + (FeedInfix + k1);
    assert d2 + FeedInfix + k2 == d2 + (FeedInfix + k2);
    assert d1 == s[..|d1|] == d2;
    assert k1 == s[|d1| + |FeedInfix|..] == k2;
  }

  /** With DIDs free of `/`, two sources share a checkpoint key exactly
      when they are the same user (whatever their flags) or the same feed. */
  lemma UniqueKeyIdentifies(s1: PostSource, s2: PostSource)
    requires '/' !in s1.userDid && '/' !in s2.userDid
    ensures UniqueKey(s1) == UniqueKey(s2) <==>
      s1.userDid == s2.userDid && s1.Feed? == s2.Feed? && (s1.Feed? ==> s1.feedKey == s2.feedKey)
  {
    match s1 {
      case User(d1, _, _) =>
        if s2.Feed? {
          assert UniqueKey(s2)[|s2.userDid|] == '/';
        }
      case Feed(d1, k1) =>
        if s2.User? {
          assert UniqueKey(s1)[|d1|] == '/';
        } else if UniqueKey(s1) == UniqueKey(s2) {
          InfixSplitsAtFirstSlash(d1, s2.userDid, k1, s2.feedKey);
        }
    }
  }

  // ---------------------------------------------------------------------
  // The checkpoint file

  /** What the model needs of Instant.toString and Instant.parse: the text
      is non-empty, holds no tab or newline, and parses back. */
  ghost predicate ShowParses(show: Instant -> string, parse: string -> Result<Instant>) {
    forall t :: |show(t)| > 0 && '\t' !in show(t) && '\n' !in show(t) && parse(show(t)) == Success(t)
  }

  /** Keys the file format can hold: no tab and no newline. */
  predicate PlainKeys(m: Checkpoints) {
    forall k :: k in m ==> '\t' !in k && '\n' !in k
  }

  /** The written lines without their newlines. */
  function Bodies(m: Checkpoints, order: seq<string>, show: Instant -> string): (r: seq<string>)
    requires forall i :: 0 <= i < |order| ==> order[i] in m
    ensures |r| == |order|
  {
    seq(|order|, i requires 0 <= i < |order| => Body(order[i], m[order[i]], show))
  }

  /** A written line splits at its tab into the key and the instant's text. */
  lemma BodyFields(key: string, t: Instant, show: Instant -> string)
    requires '\t' !in key && '\t' !in show(t) && |show(t)| > 0
    ensures Fields(Body(key, t, show)) == [key, show(t)]
  {
    var v := show(t);
    SplitNoSep(v, '\t');
    SplitField(key, v, '\t');
    assert Body(key, t, show) == key + ['\t'] + v;
    assert Body(key, t, show)[|key|] == '\t';
  }

  /** The written text is the lines joined by newlines, with an empty
      field after the last newline. */
  lemma {:induction false} WriteLinesJoin(m: Checkpoints, order: seq<string>, show: Instant -> string)
    requires |order| > 0
    requires forall i :: 0 <= i < |order| ==> order[i] in m
    ensures WriteLines(m, order, show) == Join(Bodies(m, order, show) + [""], '\n')
    decreases |order|
  {
    var b := Bodies(m, order, show);
    if |order| == 1 {
      assert (b + [""])[1..] == [""];
    } else {
      WriteLinesJoin(m, order[1..], show);
      assert Bodies(m, order[1..], show) == b[1..];
      assert (b + [""])[1..] == b[1..] + [""];
    }
  }

  /** Splitting the written text at newlines gives back the lines. */
  lemma WrittenLines(m: Checkpoints, order: seq<string>, show: Instant -> string)
    requires |order| > 0
    requires forall i :: 0 <= i < |order| ==> order[i] in m
    requires PlainKeys(m)
    requires forall t :: '\n' !in show(t)
    ensures JavaSplit(WriteLines(m, order, show), '\n') == Bodies(m, order, show)
  {
    var b := Bodies(m, order, show);
    var fields := b + [""];
    forall k | 0 <= k < |fields|
      ensures '\n' !in fields[k]
    {
      if k < |b| {
        assert fields[k] == order[k] + "\t" + show(m[order[k]]);
      }
    }
    WriteLinesJoin(m, order, show);
    SplitJoin(fields, '\n');
    assert WriteLines(m, order, show)[|b[0]|] == '\n';
    assert fields[..|b|] == b;
    assert b[|b| - 1][|order[|b| - 1]|] == '\t';
  }

  /** Reading the lines for `order` into checkpoints that already hold
      the other keys of `m` gives `m`. */
  lemma {:induction false} CollectBodies(m: Checkpoints, order: seq<string>, show: Instant -> string,
                                         parse: string -> Result<Instant>, acc: Checkpoints)
    requires forall i :: 0 <= i < |order| ==> order[i] in m
    requires forall i, j :: 0 <= i < j < |order| ==> order[i] != order[j]
    requires PlainKeys(m) && ShowParses(show, parse)
    requires forall k :: k in acc ==> k in m && acc[k] == m[k]
    requires forall k :: k in m ==> k in acc || k in order
    requires forall i :: 0 <= i < |order| ==> order[i] !in acc
    ensures Collect(Bodies(m, order, show), parse, acc) == Success(m)
    decreases |order|
  {
    if |order| == 0 {
      assert acc == m;
    } else {
      var k := order[0];
      var t := m[k];
      BodyFields(k, t, show);
      BodiesCons(m, order, show);
      CollectEntry(Bodies(m, order, show), parse, acc, k, t, show);
      AccStep(m, order, acc);
      CollectBodies(m, order[1..], show, parse, acc[k := t]);
    }
  }

  /** The lines for `order` are the first key's line, then the rest's. */
  lemma BodiesCons(m: Checkpoints, order: seq<string>, show: Instant -> string)
    requires |order| > 0
    requires forall i :: 0 <= i < |order| ==> order[i] in m
    ensures Bodies(m, order, show)[0] == Body(order[0], m[order[0]], show)
    ensures Bodies(m, order, show)[1..] == Bodies(m, order[1..], show)
  {
  }

  /** One entry line adds its key and instant and reading goes on. */
  lemma CollectEntry(lines: seq<string>, parse: string -> Result<Instant>, acc: Checkpoints,
                     k: string, t: Instant, show: Instant -> string)
    requires |lines| > 0 && lines[0] == Body(k, t, show)
    requires Fields(Body(k, t, show)) == [k, show(t)]
    requires parse(show(t)) == Success(t) && k !in acc
    ensures Collect(lines, parse, acc) == Collect(lines[1..], parse, acc[k := t])
  {
  }

  /** Moving the first key of `order` into the checkpoints read so far
      keeps the reading invariant. */
  lemma AccStep(m: Checkpoints, order: seq<string>, acc: Checkpoints)
    requires |order| > 0
    requires forall i :: 0 <= i < |order| ==> order[i] in m
    requires forall i, j :: 0 <= i < j < |order| ==> order[i] != order[j]
    requires forall k :: k in acc ==> k in m && acc[k] == m[k]
    requires forall k :: k in m ==> k in acc || k in order
    ensures forall i :: 0 <= i < |order| - 1 ==> order[1..][i] in m
    ensures forall i, j :: 0 <= i < j < |order| - 1 ==> order[1..][i] != order[1..][j]
    ensures forall k :: k in acc[order[0] := m[order[0]]] ==> k in m && acc[order[0] := m[order[0]]][k] == m[k]
    ensures forall k :: k in m ==> k in acc[order[0] := m[order[0]]] || k in order[1..]
  {
    forall k | k in m
      ensures k in acc[order[0] := m[order[0]]] || k in order[1..]
    {
      if k !in acc && k != order[0] {
        var i :| 0 <= i < |order| && order[i] == k;
        assert order[1..][i - 1] == k;
      }
    }
  }

  /** readState undoes writeState: keys with no tab or newline and an
      instant text that parses back come back exactly, whatever order the
      map was written in. */
  lemma ReadWriteState(m: Checkpoints, order: seq<string>, show: Instant -> string, parse: string -> Result<Instant>)
    requires Enumerates(order, m) && PlainKeys(m) && ShowParses(show, parse)
    ensures ReadState(Some(WriteState(m, order, show)), parse) == Success(m)
  {
    if |order| == 0 {
      assert m == map[];
      assert Fields("") == [""];
    } else {
      WrittenLines(m, order, show);
      CollectBodies(m, order, show, parse, map[]);
    }
  }

  /** Once a key has been read, a later entry for it fails. */
  lemma {:induction false} CollectKnownKeyFails(lines: seq<string>, parse: string -> Result<Instant>, acc: Checkpoints, j: nat)
    requires j < |lines| && IsEntry(lines[j]) && Fields(lines[j])[0] in acc
    ensures Collect(lines, parse, acc).Failure?
    decreases |lines|
  {
    if IsEntry(lines[0]) && parse(Fields(lines[0])[1]).Success? && Fields(lines[0])[0] !in acc {
      assert j > 0;
      var kv := Fields(lines[0]);
      assert lines[1..][j - 1] == lines[j];
      CollectKnownKeyFails(lines[1..], parse, acc[kv[0] := parse(kv[1]).value], j - 1);
    } else if !IsEntry(lines[0]) {
      assert lines[1..][j - 1] == lines[j];
      CollectKnownKeyFails(lines[1..], parse, acc, j - 1);
    }
  }

  /** Two entries for one key make readState fail. */
  lemma {:induction false} DuplicateKeyFails(lines: seq<string>, parse: string -> Result<Instant>, acc: Checkpoints, i: nat, j: nat)
    requires i < j < |lines| && IsEntry(lines[i]) && IsEntry(lines[j])
    requires Fields(lines[i])[0] == Fields(lines[j])[0]
    ensures Collect(lines, parse, acc).Failure?
    decreases |lines|
  {
    if !IsEntry(lines[0]) {
      assert lines[1..][i - 1] == lines[i] && lines[1..][j - 1] == lines[j];
      DuplicateKeyFails(lines[1..], parse, acc, i - 1, j - 1);
    } else if parse(Fields(lines[0])[1]).Success? && Fields(lines[0])[0] !in acc {
      var kv := Fields(lines[0]);
      var acc' := acc[kv[0] := parse(kv[1]).value];
      assert lines[1..][j - 1] == lines[j];
      if i == 0 {
        CollectKnownKeyFails(lines[1..], parse, acc', j - 1);
      } else {
        assert lines[1..][i - 1] == lines[i];
        DuplicateKeyFails(lines[1..], parse, acc', i - 1, j - 1);
      }
    }
  }

  // ---------------------------------------------------------------------
  // Source filters

  /** A later cutoff keeps fewer posts. */
  lemma KeepsMonotone(source: PostSource, c1: Instant, c2: Instant, p: FeedPost)
    requires c1 <= c2 && Keeps(source, c2, p)
    ensures Keeps(source, c1, p) && p.createdAt > c1
  {
  }

  /** A user source that includes reposts and embed-less posts filters
      like a feed; without those flags it drops reposts and posts without
      an embed. */
  lemma UserFilters(did: string, retweets: bool, noEmbed: bool, key: string, cutoff: Instant, p: FeedPost)
    ensures Keeps(User(did, true, true), cutoff, p) == Keeps(Feed(did, key), cutoff, p)
    ensures !retweets && p.reason == Some(ReasonRepost) ==> !Keeps(User(did, retweets, noEmbed), cutoff, p)
    ensures !noEmbed && !p.hasEmbeds ==> !Keeps(User(did, retweets, noEmbed), cutoff, p)
    ensures Keeps(User(did, retweets, noEmbed), cutoff, p) ==> Keeps(Feed(did, key), cutoff, p)
  {
  }

  // ---------------------------------------------------------------------
  // Merging checkpoints

  /** The keys of the configured sources. */
  function SourceKeys(sources: seq<PostSource>): set<string> {
    set i | 0 <= i < |sources| :: UniqueKey(sources[i])
  }

  lemma SourceKeysCons(sources: seq<PostSource>)
    requires |sources| > 0
    ensures SourceKeys(sources) == {UniqueKey(sources[0])} + SourceKeys(sources[1..])
  {
    forall k | k in SourceKeys(sources) ensures k in {UniqueKey(sources[0])} + SourceKeys(sources[1..]) {
      var i :| 0 <= i < |sources| && UniqueKey(sources[i]) == k;
      if i > 0 {
        assert sources[1..][i - 1] == sources[i];
      }
    }
    forall k | k in SourceKeys(sources[1..]) ensures k in SourceKeys(sources) {
      var i :| 0 <= i < |sources[1..]| && UniqueKey(sources[1..][i]) == k;
      assert sources[i + 1] == sources[1..][i];
    }
  }

  /** The merge adds the configured sources' keys and no others. */
  lemma {:induction false} MergeKeys(state: Checkpoints, sources: seq<PostSource>, batches: seq<seq<FeedPost>>)
    requires |sources| == |batches|
    ensures MergeAll(state, sources, batches).Keys == state.Keys + SourceKeys(sources)
    decreases |sources|
  {
    if |sources| > 0 {
      SourceKeysCons(sources);
      MergeKeys(Advance(state, UniqueKey(sources[0]), Latest(batches[0])), sources[1..], batches[1..]);
    }
  }

  /** No checkpoint goes back. */
  lemma {:induction false} MergeNeverBack(state: Checkpoints, sources: seq<PostSource>, batches: seq<seq<FeedPost>>)
    requires |sources| == |batches|
    ensures var r := MergeAll(state, sources, batches);
      forall k :: k in state ==> k in r && state[k] <= r[k]
    decreases |sources|
  {
    if |sources| > 0 {
      MergeNeverBack(Advance(state, UniqueKey(sources[0]), Latest(batches[0])), sources[1..], batches[1..]);
    }
  }

  /** A key no configured source uses keeps its checkpoint. */
  lemma {:induction false} MergeCarriesOver(state: Checkpoints, sources: seq<PostSource>, batches: seq<seq<FeedPost>>)
    requires |sources| == |batches|
    ensures var r := MergeAll(state, sources, batches);
      forall k :: k in state && k !in SourceKeys(sources) ==> k in r && r[k] == state[k]
    decreases |sources|
  {
    if |sources| > 0 {
      SourceKeysCons(sources);
      MergeCarriesOver(Advance(state, UniqueKey(sources[0]), Latest(batches[0])), sources[1..], batches[1..]);
    }
  }

  /** Each source's checkpoint ends at or after the newest post of its
      batch. */
  lemma {:induction false} MergeCovers(state: Checkpoints, sources: seq<PostSource>, batches: seq<seq<FeedPost>>)
    requires |sources| == |batches|
    ensures var r := MergeAll(state, sources, batches);
      forall i :: 0 <= i < |sources| ==> UniqueKey(sources[i]) in r && Latest(batches[i]) <= r[UniqueKey(sources[i])]
    decreases |sources|
  {
    if |sources| > 0 {
      var next := Advance(state, UniqueKey(sources[0]), Latest(batches[0]));
      var r := MergeAll(state, sources, batches);
      MergeCovers(next, sources[1..], batches[1..]);
      MergeNeverBack(next, sources[1..], batches[1..]);
      forall i | 0 <= i < |sources|
        ensures UniqueKey(sources[i]) in r && Latest(batches[i]) <= r[UniqueKey(sources[i])]
      {
        if i > 0 {
          assert sources[1..][i - 1] == sources[i] && batches[1..][i - 1] == batches[i];
        }
      }
    }
  }

  /** Each checkpoint after the merge is the old one or the newest post
      time of a batch of a source with that key; with MergeCovers and
      MergeNeverBack, it is the largest of them. */
  lemma {:induction false} MergeAttained(state: Checkpoints, sources: seq<PostSource>, batches: seq<seq<FeedPost>>)
    requires |sources| == |batches|
    ensures var r := MergeAll(state, sources, batches);
      forall k :: k in r ==>
        (k in state && r[k] == state[k]) ||
        exists i :: 0 <= i < |sources| && UniqueKey(sources[i]) == k && r[k] == Latest(batches[i])
    decreases |sources|
  {
    if |sources| > 0 {
      var key := UniqueKey(sources[0]);
      var next := Advance(state, key, Latest(batches[0]));
      var r := MergeAll(state, sources, batches);
      MergeAttained(next, sources[1..], batches[1..]);
      forall k | k in r
        ensures (k in state && r[k] == state[k]) ||
                exists i :: 0 <= i < |sources| && UniqueKey(sources[i]) == k && r[k] == Latest(batches[i])
      {
        if k in next && r[k] == next[k] {
          if k == key && !(k in state && r[k] == state[k]) {
            assert UniqueKey(sources[0]) == k && r[k] == Latest(batches[0]);
          }
        } else {
          var i :| 0 <= i < |sources[1..]| && UniqueKey(sources[1..][i]) == k && r[k] == Latest(batches[1..][i]);
          assert sources[i + 1] == sources[1..][i] && batches[i + 1] == batches[1..][i];
        }
      }
    }
  }

  /** A source with no checkpoint whose batches are all empty is recorded
      at Instant.MIN. */
  lemma EmptyFirstRoundIsMin(state: Checkpoints, sources: seq<PostSource>, batches: seq<seq<FeedPost>>, key: string)
    requires |sources| == |batches|
    requires key in SourceKeys(sources) && key !in state
    requires forall i :: 0 <= i < |sources| && UniqueKey(sources[i]) == key ==> batches[i] == []
    ensures var r := MergeAll(state, sources, batches); key in r && r[key] == InstantMin
  {
    MergeKeys(state, sources, batches);
    MergeAttained(state, sources, batches);
    var i :| 0 <= i < |sources| && UniqueKey(sources[i]) == key && MergeAll(state, sources, batches)[key] == Latest(batches[i]);
  }

  /** No post of a round passes its source's filter in a later round: the
      source's checkpoint has reached the post's time, and the filter asks
      for strictly newer posts. */
  lemma NoRedelivery(state: Checkpoints, sources: seq<PostSource>, batches: seq<seq<FeedPost>>, i: nat, p: FeedPost, later: Instant)
    requires |sources| == |batches| && i < |sources| && p in batches[i]
    ensures !Keeps(sources[i], Cutoff(MergeAll(state, sources, batches), sources[i], later), p)
  {
    MergeCovers(state, sources, batches);
    var j :| 0 <= j < |batches[i]| && batches[i][j] == p;
    assert p.createdAt <= Latest(batches[i]);
  }

  // ---------------------------------------------------------------------
  // Sorting the round's posts

  /** The posts created at instant `t`, in order. */
  function AtTime(ps: seq<FeedPost>, t: Instant): (r: seq<FeedPost>)
    ensures |r| <= |ps|
  {
    if |ps| == 0 then []
    else (if ps[0].createdAt == t then [ps[0]] else []) + AtTime(ps[1..], t)
  }

  lemma {:induction false} AtTimeAppend(a: seq<FeedPost>, b: seq<FeedPost>, t: Instant)
    ensures AtTime(a + b, t) == AtTime(a, t) + AtTime(b, t)
    decreases |a|
  {
    if |a| == 0 {
      assert a + b == b;
    } else {
      var head := if a[0].createdAt == t then [a[0]] else [];
      assert (a + b)[0] == a[0];
      assert (a + b)[1..] == a[1..] + b;
      AtTimeAppend(a[1..], b, t);
      calc {
        AtTime(a + b, t);
        head + AtTime(a[1..] + b, t);
        head + (AtTime(a[1..], t) + AtTime(b, t));
        (head + AtTime(a[1..], t)) + AtTime(b, t);
        AtTime(a, t) + AtTime(b, t);
      }
    }
  }

  /** A time-ordered sequence whose first post is later than `t` has no
      post at `t`. */
  lemma {:induction false} NoneAtEarlierTime(ps: seq<FeedPost>, t: Instant)
    requires SortedByTime(ps) && |ps| > 0 && t < ps[0].createdAt
    ensures AtTime(ps, t) == []
    decreases |ps|
  {
    if |ps| > 1 {
      NoneAtEarlierTime(ps[1..], t);
    }
  }

  /** The head of a sequence and the posts at `t` after it. */
  lemma AtTimeCons(ps: seq<FeedPost>, t: Instant)
    requires |ps| > 0
    ensures AtTime(ps, t) == AtTime([ps[0]], t) + AtTime(ps[1..], t)
  {
    assert AtTime([ps[0]], t) == (if ps[0].createdAt == t then [ps[0]] else []) + AtTime([], t);
  }

  /** Insertion keeps a time-ordered sequence in order. */
  lemma {:induction false} InsertSorted(sorted: seq<FeedPost>, p: FeedPost)
    requires SortedByTime(sorted)
    ensures SortedByTime(Insert(sorted, p))
    decreases |sorted|
  {
    if |sorted| > 0 {
      var r := Insert(sorted, p);
      if p.createdAt < sorted[0].createdAt {
        assert forall j :: 0 < j < |r| ==> r[j] == sorted[j - 1];
      } else {
        var rest := Insert(sorted[1..], p);
        InsertSorted(sorted[1..], p);
        assert forall j :: 0 < j < |r| ==> r[j] == rest[j - 1];
        forall j | 0 <= j < |rest| ensures InOrder(sorted[0], rest[j]) {
          if rest[j] != p {
            var m :| 0 <= m < |sorted[1..]| && sorted[1..][m] == rest[j];
            assert sorted[m + 1] == rest[j];
          }
        }
      }
    }
  }

  /** A post earlier than the whole sequence goes in front, and no post
      of the sequence shares its time. */
  lemma InsertFront(sorted: seq<FeedPost>, p: FeedPost, t: Instant)
    requires SortedByTime(sorted) && |sorted| > 0 && p.createdAt < sorted[0].createdAt
    ensures AtTime([p] + sorted, t) == AtTime(sorted, t) + AtTime([p], t)
  {
    if p.createdAt == t {
      NoneAtEarlierTime(sorted, t);
    }
    AtTimeCons([p] + sorted, t);
    assert ([p] + sorted)[1..] == sorted;
  }

  /** Insertion puts the post after the others of its time. */
  lemma {:induction false} InsertStable(sorted: seq<FeedPost>, p: FeedPost, t: Instant)
    requires SortedByTime(sorted)
    ensures AtTime(Insert(sorted, p), t) == AtTime(sorted, t) + AtTime([p], t)
    decreases |sorted|
  {
    if |sorted| == 0 {
      assert Insert(sorted, p) == [p];
    } else if p.createdAt < sorted[0].createdAt {
      assert Insert(sorted, p) == [p] + sorted;
      InsertFront(sorted, p, t);
    } else {
      SortedTail(sorted);
      InsertStable(sorted[1..], p, t);
      InsertBehind(sorted, p, t);
    }
  }

  /** A post no earlier than the head goes behind it. */
  lemma InsertBehind(sorted: seq<FeedPost>, p: FeedPost, t: Instant)
    requires |sorted| > 0 && sorted[0].createdAt <= p.createdAt
    requires AtTime(Insert(sorted[1..], p), t) == AtTime(sorted[1..], t) + AtTime([p], t)
    ensures AtTime(Insert(sorted, p), t) == AtTime(sorted, t) + AtTime([p], t)
  {
    InsertUnfold(sorted, p);
    ConsAtTime(sorted, Insert(sorted[1..], p), p, t);
  }

  lemma InsertUnfold(sorted: seq<FeedPost>, p: FeedPost)
    requires |sorted| > 0 && sorted[0].createdAt <= p.createdAt
    ensures Insert(sorted, p) == [sorted[0]] + Insert(sorted[1..], p)
  {
  }

  lemma SortedTail(ps: seq<FeedPost>)
    requires SortedByTime(ps) && |ps| > 0
    ensures SortedByTime(ps[1..])
  {
    forall i, j | 0 <= i < j < |ps| - 1 ensures InOrder(ps[1..][i], ps[1..][j]) {
      assert ps[1..][i] == ps[i + 1] && ps[1..][j] == ps[j + 1];
    }
  }

  /** The head of `ps` put in front of a sequence that agrees at `t` with
      the tail of `ps` followed by `p`. */
  lemma ConsAtTime(ps: seq<FeedPost>, rest: seq<FeedPost>, p: FeedPost, t: Instant)
    requires |ps| > 0
    requires AtTime(rest, t) == AtTime(ps[1..], t) + AtTime([p], t)
    ensures AtTime([ps[0]] + rest, t) == AtTime(ps, t) + AtTime([p], t)
  {
    assert ([ps[0]] + rest)[1..] == rest;
    assert AtTime([ps[0]], t) + (AtTime(ps[1..], t) + AtTime([p], t))
        == (AtTime([ps[0]], t) + AtTime(ps[1..], t)) + AtTime([p], t);
    AtTimeCons([ps[0]] + rest, t);
    AtTimeCons(ps, t);
  }

  /** The sort orders by time and, among posts of one time, keeps their
      order: together with being a permutation, this is List.sort's
      stable sort. */
  lemma {:induction false} SortByTimeStable(ps: seq<FeedPost>, t: Instant)
    ensures SortedByTime(SortByTime(ps))
    ensures AtTime(SortByTime(ps), t) == AtTime(ps, t)
    decreases |ps|
  {
    if |ps| > 0 {
      var init := ps[..|ps| - 1];
      var last := ps[|ps| - 1];
      SortByTimeStable(init, t);
      SortUnfold(ps);
      SortStep(ps, SortByTime(init), SortByTime(ps), t);
    }
  }

  /** One insertion step of the sort: a sorted, stable arrangement of all
      but the last post, with the last post inserted. */
  lemma SortStep(ps: seq<FeedPost>, s: seq<FeedPost>, r: seq<FeedPost>, t: Instant)
    requires |ps| > 0
    requires SortedByTime(s) && AtTime(s, t) == AtTime(ps[..|ps| - 1], t)
    requires r == Insert(s, ps[|ps| - 1])
    ensures SortedByTime(r) && AtTime(r, t) == AtTime(ps, t)
  {
    var init := ps[..|ps| - 1];
    var last := ps[|ps| - 1];
    SplitLast(ps);
    AtTimeAppend(init, [last], t);
    InsertSorted(s, last);
    InsertStable(s, last, t);
  }

  lemma SplitLast(ps: seq<FeedPost>)
    requires |ps| > 0
    ensures ps == ps[..|ps| - 1] + [ps[|ps| - 1]]
  {
  }

  lemma SortUnfold(ps: seq<FeedPost>)
    requires |ps| > 0
    ensures SortByTime(ps) == Insert(SortByTime(ps[..|ps| - 1]), ps[|ps| - 1])
  {
  }

  /** A round's output: every post of every batch, each once, by time, and
      posts of one time in source order and then batch order. */
  lemma RoundPosts(state: Checkpoints, sources: seq<PostSource>, batches: seq<seq<FeedPost>>, t: Instant)
    requires |sources| == |batches|
    ensures multiset(RunRound(state, sources, batches).posts) == multiset(Concat(batches))
    ensures SortedByTime(RunRound(state, sources, batches).posts)
    ensures AtTime(RunRound(state, sources, batches).posts, t) == AtTime(Concat(batches), t)
  {
    SortByTimeStable(Concat(batches), t);
  }

  // ---------------------------------------------------------------------
  // Reading a feed response

  /** The embed `$type` the round trip below writes for a post with an
      embed. */
  const ImagesEmbed: string := "app.bsky.embed.images"

  /** The record of a written entry: a post with its time and, when it
      has one, an image embed. */
  function EncodeRecord(p: FeedPost, show: Instant -> string): Json {
    var embed := if p.hasEmbeds then [Member("embed", JObject([Member("$type", JString(ImagesEmbed))]))] else [];
    JObject([Member("$type", JString(PostType)), Member("createdAt", JString(show(p.createdAt)))] + embed)
  }

  /** The `post` member of a written entry. */
  function EncodePostNode(p: FeedPost, show: Instant -> string): Json {
    JObject([Member("uri", JString(p.uri)), Member("record", EncodeRecord(p, show))])
  }

  /** The `reason` member of a written entry, if the post has a reason. */
  function EncodeReason(reason: Option<string>): seq<Member> {
    match reason
    case None => []
    case Some(r) => [Member("reason", JObject([Member("$type", JString(r))]))]
  }

  /** A feed entry in the shape the reader expects, describing `p`. */
  function EncodePost(p: FeedPost, show: Instant -> string): Json {
    JObject([Member("post", EncodePostNode(p, show))] + EncodeReason(p.reason))
  }

  /** A response whose `feed` is the entries for `ps`. */
  function EncodeFeed(ps: seq<FeedPost>, show: Instant -> string): Json {
    JObject([Member("feed", JArray(seq(|ps|, i requires 0 <= i < |ps| => EncodePost(ps[i], show))))])
  }

  /** The posts `keep` accepts, in order. */
  function Kept(ps: seq<FeedPost>, keep: FeedPost -> bool): seq<FeedPost> {
    if |ps| == 0 then [] else (if keep(ps[0]) then [ps[0]] else []) + Kept(ps[1..], keep)
  }

  /** Looking a key up in an object of one, two or three members. */
  lemma LookupSmall(a: Member, b: Member, c: Member, key: string)
    ensures Lookup([a], key) == if a.key == key then Some(a.value) else None
    ensures Lookup([a, b], key) == if a.key == key then Some(a.value) else Lookup([b], key)
    ensures Lookup([a, b, c], key) == if a.key == key then Some(a.value) else Lookup([b, c], key)
  {
    assert [a][1..] == [];
    assert [a, b][1..] == [b];
    assert [a, b, c][1..] == [b, c];
  }

  /** The members of a written record. */
  lemma RecordMembers(p: FeedPost, show: Instant -> string)
    ensures EncodeRecord(p, show).members ==
      [Member("$type", JString(PostType)), Member("createdAt", JString(show(p.createdAt)))] +
      (if p.hasEmbeds then [Member("embed", JObject([Member("$type", JString(ImagesEmbed))]))] else [])
  {
  }

  lemma RecordType(p: FeedPost, show: Instant -> string)
    ensures Get(EncodeRecord(p, show), "$type") == Success(JString(PostType))
  {
    var ms := EncodeRecord(p, show).members;
    RecordMembers(p, show);
    assert ms[0] == Member("$type", JString(PostType));
  }

  lemma RecordCreated(p: FeedPost, show: Instant -> string)
    ensures Get(EncodeRecord(p, show), "createdAt") == Success(JString(show(p.createdAt)))
  {
    var ms := EncodeRecord(p, show).members;
    RecordMembers(p, show);
    assert "$type"[0] != "createdAt"[0];
    assert ms[0].key != "createdAt" && ms[1] == Member("createdAt", JString(show(p.createdAt)));
    assert ms[1..][0] == ms[1];
  }

  lemma RecordEmbeds(p: FeedPost, show: Instant -> string)
    ensures HasEmbeds(EncodeRecord(p, show)) == Success(p.hasEmbeds)
  {
    var typ := Member("$type", JString(PostType));
    var created := Member("createdAt", JString(show(p.createdAt)));
    var embed := Member("embed", JObject([Member("$type", JString(ImagesEmbed))]));
    RecordMembers(p, show);
    assert "$type"[0] != "embed"[0] && |"createdAt"| != |"embed"|;
    if p.hasEmbeds {
      assert EncodeRecord(p, show).members == [typ, created, embed];
      LookupSmall(typ, created, embed, "embed");
      LookupSmall(created, embed, embed, "embed");
      LookupSmall(embed, embed, embed, "embed");
      EmbedTypes(EncodeRecord(p, show), ImagesEmbed);
    } else {
      assert EncodeRecord(p, show).members == [typ, created];
      LookupSmall(typ, created, created, "embed");
      LookupSmall(created, created, created, "embed");
    }
  }

  lemma ReasonOfPost(p: FeedPost, show: Instant -> string)
    ensures EntryReason(EncodePost(p, show)) == Success(p.reason)
  {
    var post := Member("post", EncodePostNode(p, show));
    match p.reason {
      case None =>
        assert EncodePost(p, show) == JObject([post]);
        ReasonAbsent(post);
      case Some(r) =>
        assert EncodePost(p, show) == JObject([post, Member("reason", JObject([Member("$type", JString(r))]))]);
        ReasonPresent(post, r);
    }
  }

  lemma ReasonAbsent(post: Member)
    requires post.key == "post"
    ensures EntryReason(JObject([post])) == Success(None)
  {
    assert |"post"| != |"reason"|;
    LookupSmall(post, post, post, "reason");
  }

  lemma ReasonPresent(post: Member, r: string)
    requires post.key == "post"
    ensures EntryReason(JObject([post, Member("reason", JObject([Member("$type", JString(r))]))])) == Success(Some(r))
  {
    var typ := Member("$type", JString(r));
    var reason := Member("reason", JObject([typ]));
    assert |"post"| != |"reason"|;
    LookupSmall(post, reason, reason, "reason");
    LookupSmall(reason, reason, reason, "reason");
    LookupSmall(typ, typ, typ, "$type");
  }

  /** The entry written for a post reads back as that post. */
  lemma EntryOfPost(p: FeedPost, show: Instant -> string, validUri: string -> bool, parse: string -> Result<Instant>)
    requires parse(show(p.createdAt)) == Success(p.createdAt) && validUri(p.uri)
    ensures EntryResult(EncodePost(p, show), validUri, parse) == Success(Some(p))
  {
    var e := EncodePost(p, show);
    PostOfEntry(p, show);
    PostNodeFields(p, show);
    RecordType(p, show);
    RecordCreated(p, show);
    RecordEmbeds(p, show);
    ReasonOfPost(p, show);
    assert IsPostRecord(e) == Success(true);
    EntryPostOf(p, show, validUri, parse);
  }

  /** The `post` member of a written entry is its post node. */
  lemma PostOfEntry(p: FeedPost, show: Instant -> string)
    ensures Lookup(EncodePost(p, show).members, "post") == Some(EncodePostNode(p, show))
    ensures IsPostEntry(EncodePost(p, show))
  {
    var e := EncodePost(p, show);
    assert e.members[0] == Member("post", EncodePostNode(p, show));
  }

  /** The `uri` and `record` members of a written post node. */
  lemma PostNodeFields(p: FeedPost, show: Instant -> string)
    ensures Get(EncodePostNode(p, show), "uri") == Success(JString(p.uri))
    ensures GetObject(EncodePostNode(p, show), "record") == Success(EncodeRecord(p, show))
  {
    var uri := Member("uri", JString(p.uri));
    var record := Member("record", EncodeRecord(p, show));
    assert EncodePostNode(p, show).members == [uri, record];
    assert |"uri"| != |"record"|;
    LookupSmall(uri, record, record, "record");
    LookupSmall(uri, record, record, "uri");
    LookupSmall(record, record, record, "record");
  }

  /** The post a written entry describes, once its parts are known. */
  lemma EntryPostOf(p: FeedPost, show: Instant -> string, validUri: string -> bool, parse: string -> Result<Instant>)
    requires parse(show(p.createdAt)) == Success(p.createdAt) && validUri(p.uri)
    requires Lookup(EncodePost(p, show).members, "post") == Some(EncodePostNode(p, show))
    requires Get(EncodePostNode(p, show), "uri") == Success(JString(p.uri))
    requires GetObject(EncodePostNode(p, show), "record") == Success(EncodeRecord(p, show))
    requires Get(EncodeRecord(p, show), "createdAt") == Success(JString(show(p.createdAt)))
    requires HasEmbeds(EncodeRecord(p, show)) == Success(p.hasEmbeds)
    requires EntryReason(EncodePost(p, show)) == Success(p.reason)
    ensures IsPostEntry(EncodePost(p, show))
    ensures EntryPost(EncodePost(p, show), validUri, parse) == Success(Some(p))
  {
  }

  /** One entry the reader turns into a post, ahead of the rest. */
  lemma EntryStep(e: Json, p: FeedPost, rest: seq<Json>, validUri: string -> bool,
                  parse: string -> Result<Instant>, keep: FeedPost -> bool)
    requires EntryResult(e, validUri, parse) == Success(Some(p))
    requires SelectPosts(rest, validUri, parse, keep).Success?
    ensures SelectPosts([e] + rest, validUri, parse, keep) ==
      Success((if keep(p) then [p] else []) + SelectPosts(rest, validUri, parse, keep).value)
  {
    assert ([e] + rest)[0] == e && ([e] + rest)[1..] == rest;
    var tail := SelectPosts(rest, validUri, parse, keep).value;
    if !keep(p) {
      assert [] + tail == tail;
    }
  }

  /** A feed array of written entries reads back as the posts kept. */
  lemma {:induction false} SelectEncoded(ps: seq<FeedPost>, show: Instant -> string, validUri: string -> bool,
                                         parse: string -> Result<Instant>, keep: FeedPost -> bool)
    requires forall i :: 0 <= i < |ps| ==> parse(show(ps[i].createdAt)) == Success(ps[i].createdAt) && validUri(ps[i].uri)
    ensures SelectPosts(seq(|ps|, i requires 0 <= i < |ps| => EncodePost(ps[i], show)), validUri, parse, keep) == Success(Kept(ps, keep))
    decreases |ps|
  {
    if |ps| > 0 {
      EntryOfPost(ps[0], show, validUri, parse);
      SelectEncoded(ps[1..], show, validUri, parse, keep);
      EncodedCons(ps, show);
      var tail := seq(|ps[1..]|, i requires 0 <= i < |ps[1..]| => EncodePost(ps[1..][i], show));
      EntryStep(EncodePost(ps[0], show), ps[0], tail, validUri, parse, keep);
      KeptCons(ps, keep);
    }
  }

  /** The entries written for a non-empty list: the first post's, then the rest's. */
  lemma EncodedCons(ps: seq<FeedPost>, show: Instant -> string)
    requires |ps| > 0
    ensures seq(|ps|, i requires 0 <= i < |ps| => EncodePost(ps[i], show)) ==
      [EncodePost(ps[0], show)] + seq(|ps[1..]|, i requires 0 <= i < |ps[1..]| => EncodePost(ps[1..][i], show))
  {
  }

  lemma KeptCons(ps: seq<FeedPost>, keep: FeedPost -> bool)
    requires |ps| > 0
    ensures Kept(ps, keep) == (if keep(ps[0]) then [ps[0]] else []) + Kept(ps[1..], keep)
  {
  }

  /** parseFeed of a response built from posts gives back the posts the
      predicate keeps, in order, when every time parses back and every
      URI is valid. */
  lemma {:induction false} ParseEncodedFeed(ps: seq<FeedPost>, show: Instant -> string, validUri: string -> bool,
                         parse: string -> Result<Instant>, keep: FeedPost -> bool)
    requires forall i :: 0 <= i < |ps| ==> parse(show(ps[i].createdAt)) == Success(ps[i].createdAt) && validUri(ps[i].uri)
    ensures ParseFeed(Some(EncodeFeed(ps, show)), validUri, parse, keep) == Success(Kept(ps, keep))
  {
    SelectEncoded(ps, show, validUri, parse, keep);
  }

  /** An entry with no `post` object is skipped, and so are one whose
      record is not a post and one with an invalid URI. */
  lemma SkippedEntries(e: Json, rest: seq<Json>, validUri: string -> bool, parse: string -> Result<Instant>, keep: FeedPost -> bool)
    requires !IsPostEntry(e) || IsPostRecord(e) == Success(false) || (IsPostRecord(e) == Success(true) && EntryPost(e, validUri, parse) == Success(None))
    ensures SelectPosts([e] + rest, validUri, parse, keep) == SelectPosts(rest, validUri, parse, keep)
  {
    assert ([e] + rest)[0] == e && ([e] + rest)[1..] == rest;
  }

  /** Which embeds count: a link card or a quoted record does not, any
      other embed type does. */
  lemma EmbedTypes(record: Json, typ: string)
    requires record.JObject? && Lookup(record.members, "embed") == Some(JObject([Member("$type", JString(typ))]))
    ensures HasEmbeds(record) == Success(typ != "app.bsky.embed.external" && typ != "app.bsky.embed.record")
  {
  }

  /** A response that is not an object with a `feed` array gives no
      posts. */
  lemma MalformedResponse(response: Json, validUri: string -> bool, parse: string -> Result<Instant>, keep: FeedPost -> bool)
    requires !Has(response, "feed") || !Lookup(response.members, "feed").value.JArray?
    ensures ParseFeed(Some(response), validUri, parse, keep) == Success([])
  {
  }
}
