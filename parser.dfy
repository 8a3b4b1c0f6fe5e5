/** `parse_tweets`: label every fetched tweet and collect the labelled entries,
    skipping a retweeted tweet whose entry has already been collected. */
module Parser {
  import opened Sentiment

  /** The two fields of a fetched tweet that the parser reads. */
  datatype Tweet = Tweet(text: string, retweetCount: int)

  /** The dictionary `{'text': ..., 'sentiment': ...}`; two entries are equal when
      both fields are (dictionary equality). */
  datatype Entry = Entry(text: string, sentiment: Label)

  /** The entry built for a tweet: its original, uncleaned text and its label. */
  function EntryOf(an: Analyzer, t: Tweet): (e: Entry)
    ensures e.text == t.text && e.sentiment == Classify(an, t.text)
  {
    Entry(t.text, Classify(an, t.text))
  }

  /** One iteration of the parsing loop, applied to the entries collected so far. */
  function Admit(an: Analyzer, acc: seq<Entry>, t: Tweet): seq<Entry> {
    var e := EntryOf(an, t);
    if t.retweetCount > 0 then
      if e in acc then acc else acc + [e]
    else
      acc + [e]
  }

  /** What the parsing loop has collected after the given tweets. */
  function Parsed(an: Analyzer, ts: seq<Tweet>): seq<Entry>
    decreases |ts|
  {
    if ts == [] then [] else Admit(an, Parsed(an, ts[..|ts| - 1]), ts[|ts| - 1])
  }

  /** `parse_tweets`, the loop that grows the list in place. */
  method ParseTweets(an: Analyzer, tweets: seq<Tweet>) returns (parsed: seq<Entry>)
    ensures parsed == Parsed(an, tweets)
    ensures |parsed| <= |tweets|
    ensures parsed == [] <==> tweets == []
  {
    parsed := [];
    for i := 0 to |tweets|
      invariant parsed == Parsed(an, tweets[..i])
    {
      assert tweets[..i + 1][..i] == tweets[..i];
      var entry := Entry(tweets[i].text, Classify(an, tweets[i].text));
      if tweets[i].retweetCount > 0 {
        if entry !in parsed {
          parsed := parsed + [entry];
        }
      } else {
        parsed := parsed + [entry];
      }
    }
    assert tweets[..|tweets|] == tweets;
    ParsedLength(an, tweets);
  }

  /** The entry of every tweet, one per tweet, in input order. */
  function Entries(an: Analyzer, ts: seq<Tweet>): (es: seq<Entry>)
    ensures |es| == |ts|
    ensures forall i | 0 <= i < |ts| :: es[i] == EntryOf(an, ts[i])
  {
    seq(|ts|, i requires 0 <= i < |ts| => EntryOf(an, ts[i]))
  }

  /** Whether tweet `i` gets an entry, decided from the input alone: it has no
      retweets, or no earlier tweet has the same entry. */
  predicate Kept(an: Analyzer, ts: seq<Tweet>, i: nat)
    requires i < |ts|
  {
    ts[i].retweetCount <= 0 || EntryOf(an, ts[i]) !in Entries(an, ts[..i])
  }

  /** The positions of the kept tweets, in increasing order. */
  ghost function KeptIndices(an: Analyzer, ts: seq<Tweet>): seq<nat>
    decreases |ts|
  {
    if ts == [] then []
    else
      var n := |ts| - 1;
      KeptIndices(an, ts[..n]) + (if Kept(an, ts, n) then [n] else [])
  }

  /** The loop never grows the list by more than one entry per tweet, and the first
      tweet is always collected, so the list is empty exactly when there were no
      tweets. */
  lemma {:induction false} ParsedLength(an: Analyzer, ts: seq<Tweet>)
    ensures |Parsed(an, ts)| <= |ts|
    ensures Parsed(an, ts) == [] <==> ts == []
    decreases |ts|
  {
    if ts != [] {
      ParsedLength(an, ts[..|ts| - 1]);
    }
  }

  /** The collected entries are exactly the entries of the input tweets, duplicates
      aside: each keeps its tweet's uncleaned text and the label of that text. */
  lemma {:induction false} ParsedEntries(an: Analyzer, ts: seq<Tweet>)
    ensures forall e :: e in Parsed(an, ts) <==> e in Entries(an, ts)
    ensures forall e | e in Parsed(an, ts) :: e.sentiment == Classify(an, e.text)
    decreases |ts|
  {
    if ts != [] {
      var n := |ts| - 1;
      ParsedEntries(an, ts[..n]);
      assert Entries(an, ts) == Entries(an, ts[..n]) + [EntryOf(an, ts[n])];
    }
  }

  /** One more tweet: a tweet without retweets is always appended, even when an
      equal entry is already there; a retweeted one is appended exactly when no
      earlier tweet has the same entry, which is the same as the source's test
      against the list built so far. */
  lemma ParsedSnoc(an: Analyzer, ts: seq<Tweet>, t: Tweet)
    ensures Parsed(an, ts + [t]) ==
      if t.retweetCount > 0 && EntryOf(an, t) in Entries(an, ts) then Parsed(an, ts)
      else Parsed(an, ts) + [EntryOf(an, t)]
  {
    assert (ts + [t])[..|ts|] == ts;
    ParsedEntries(an, ts);
  }

  /** The kept positions are increasing positions of the input, and a position is
      among them exactly when its tweet is kept. */
  lemma {:induction false} KeptIndicesSpec(an: Analyzer, ts: seq<Tweet>)
    ensures var idx := KeptIndices(an, ts);
      && (forall k | 0 <= k < |idx| :: idx[k] < |ts|)
      && (forall k, l | 0 <= k < l < |idx| :: idx[k] < idx[l])
      && (forall i | 0 <= i < |ts| :: i in idx <==> Kept(an, ts, i))
    decreases |ts|
  {
    if ts != [] {
      KeptIndicesSpec(an, ts[..|ts| - 1]);
      KeptOnPrefix(an, ts);
    }
  }

  /** The parsed list is the order-preserving subsequence of the tweets' entries
      made of the kept tweets: a tweet with no retweets always contributes one
      entry, a retweeted one contributes one exactly when no earlier tweet has the
      same text and label. */
  lemma {:induction false} ParsedSubsequence(an: Analyzer, ts: seq<Tweet>)
    ensures var idx := KeptIndices(an, ts);
      && |idx| == |Parsed(an, ts)|
      && (forall k | 0 <= k < |idx| :: idx[k] < |ts| && Parsed(an, ts)[k] == EntryOf(an, ts[idx[k]]))
      && (forall k, l | 0 <= k < l < |idx| :: idx[k] < idx[l])
      && (forall i | 0 <= i < |ts| :: i in idx <==> Kept(an, ts, i))
    decreases |ts|
  {
    KeptIndicesSpec(an, ts);
    ParsedAtKept(an, ts);
  }

  lemma {:induction false} ParsedAtKept(an: Analyzer, ts: seq<Tweet>)
    ensures var idx := KeptIndices(an, ts);
      && |idx| == |Parsed(an, ts)|
      && (forall k | 0 <= k < |idx| :: idx[k] < |ts| && Parsed(an, ts)[k] == EntryOf(an, ts[idx[k]]))
    decreases |ts|
  {
    if ts != [] {
      var n := |ts| - 1;
      var init := ts[..n];
      ParsedAtKept(an, init);
      KeptIndicesSpec(an, init);
      assert init + [ts[n]] == ts;
      ParsedSnoc(an, init, ts[n]);
      var idx0 := KeptIndices(an, init);
      var p0 := Parsed(an, init);
      forall k | 0 <= k < |idx0| ensures init[idx0[k]] == ts[idx0[k]] { }
      if Kept(an, ts, n) {
        assert KeptIndices(an, ts) == idx0 + [n];
        assert Parsed(an, ts) == p0 + [EntryOf(an, ts[n])];
      } else {
        assert KeptIndices(an, ts) == idx0;
        assert Parsed(an, ts) == p0;
      }
    }
  }

  /** Whether a tweet is kept depends only on the tweets up to it. */
  lemma KeptOnPrefix(an: Analyzer, ts: seq<Tweet>)
    requires ts != []
    ensures forall i | 0 <= i < |ts| - 1 :: Kept(an, ts[..|ts| - 1], i) == Kept(an, ts, i)
  {
    var init := ts[..|ts| - 1];
    forall i | 0 <= i < |init| ensures Kept(an, init, i) == Kept(an, ts, i) {
      assert init[i] == ts[i];
      assert init[..i] == ts[..i];
    }
  }

  /** A retweeted tweet is dropped when any earlier tweet, retweeted or not, has
      the same text (and hence the same label). */
  lemma RetweetedDuplicateDropped(an: Analyzer, ts: seq<Tweet>, i: nat, j: nat)
    requires i < j < |ts|
    requires ts[i].text == ts[j].text && ts[j].retweetCount > 0
    ensures j !in KeptIndices(an, ts)
    ensures |Parsed(an, ts)| < |ts|
  {
    assert Entries(an, ts[..j])[i] == EntryOf(an, ts[j]);
    KeptIndicesSpec(an, ts);
    DroppedShortens(an, ts, j);
  }

  /** A tweet that is not kept leaves fewer entries than tweets. */
  lemma {:induction false} DroppedShortens(an: Analyzer, ts: seq<Tweet>, j: nat)
    requires j < |ts| && !Kept(an, ts, j)
    ensures |Parsed(an, ts)| < |ts|
    decreases |ts|
  {
    var n := |ts| - 1;
    var init := ts[..n];
    assert init + [ts[n]] == ts;
    ParsedSnoc(an, init, ts[n]);
    ParsedLength(an, init);
    if j < n {
      KeptOnPrefix(an, ts);
      DroppedShortens(an, init, j);
    }
  }
}
