/** The counting block of `main`: the entries of each label, and their shares of
    the parsed list as percentages, computed only when the list is not empty. */
module Aggregate {
  import opened Wrappers
  import opened Sentiment
  import opened Parser

  /** `[tweet for tweet in parsed if tweet['sentiment'] == wanted]`: the entries
      with label `wanted`, in order. */
  function WithLabel(parsed: seq<Entry>, wanted: Label): (r: seq<Entry>)
    ensures |r| <= |parsed|
    ensures forall e :: e in r <==> e in parsed && e.sentiment == wanted
    ensures forall e :: multiset(r)[e] == if e.sentiment == wanted then multiset(parsed)[e] else 0
    decreases |parsed|
  {
    if parsed == [] then []
    else
      assert parsed == [parsed[0]] + parsed[1..];
      (if parsed[0].sentiment == wanted then [parsed[0]] else []) + WithLabel(parsed[1..], wanted)
  }

  /** Every entry carries exactly one of the two labels, so the two counts add up
      to the length of the list. */
  lemma {:induction false} CountsPartition(parsed: seq<Entry>)
    ensures |WithLabel(parsed, Positive)| + |WithLabel(parsed, Negative)| == |parsed|
    decreases |parsed|
  {
    if parsed != [] {
      CountsPartition(parsed[1..]);
    }
  }

  /** The two figures `main` prints and plots, as exact percentages. */
  datatype Breakdown = Breakdown(positive: real, negative: real)

  /** The percentages of positive and negative entries, or nothing for an empty
      list (where `main` prints its no-data message instead). Each share is the
      count times one hundred over the length, lies between 0 and 100, and the two
      add up to 100. */
  function Percentages(parsed: seq<Entry>): (r: Option<Breakdown>)
    ensures r.None? <==> parsed == []
    ensures r.Some? ==> && 0.0 <= r.value.positive <= 100.0
                        && 0.0 <= r.value.negative <= 100.0
                        && r.value.positive + r.value.negative == 100.0
    ensures r.Some? ==> && r.value.positive == Share(|WithLabel(parsed, Positive)|, |parsed|)
                        && r.value.negative == Share(|WithLabel(parsed, Negative)|, |parsed|)
  {
    if |parsed| == 0 then None
    else
      var pos := |WithLabel(parsed, Positive)|;
      var neg := |WithLabel(parsed, Negative)|;
      CountsPartition(parsed);
      assert pos + neg == |parsed|;
      Shares(pos, neg, |parsed|);
      Some(Breakdown(Share(pos, |parsed|), Share(neg, |parsed|)))
  }

  /** `100*count/total` as an exact real. */
  function Share(count: nat, total: nat): real
    requires 0 < total
  {
    100.0 * (count as real) / (total as real)
  }

  /** Exact shares of a split of `n` into `p` and `q`. */
  lemma Shares(p: nat, q: nat, n: nat)
    requires p + q == n && 0 < n
    ensures 0.0 <= Share(p, n) <= 100.0 && 0.0 <= Share(q, n) <= 100.0
    ensures Share(p, n) + Share(q, n) == 100.0
    ensures Share(p, n) * (n as real) == 100.0 * (p as real)
    ensures Share(q, n) * (n as real) == 100.0 * (q as real)
  {
    var m := n as real;
    var a := Share(p, n);
    var b := Share(q, n);
    assert (p as real) + (q as real) == m;
    ScaledShare(p as real, m);
    ScaledShare(q as real, m);
    assert a * m == 100.0 * (p as real);
    assert b * m == 100.0 * (q as real);
    assert (a + b) * m == a * m + b * m;
    assert 100.0 * (p as real) + 100.0 * (q as real) == 100.0 * m;
    assert (a + b) * m == 100.0 * m;
    CancelPositive(a + b, 100.0, m);
  }

  /** `100*c/m`, multiplied back by `m`, gives `100*c`; it lies between 0 and 100
      when `c` is at most `m`. */
  lemma ScaledShare(c: real, m: real)
    requires 0.0 <= c <= m && 0.0 < m
    ensures (100.0 * c / m) * m == 100.0 * c
    ensures 0.0 <= 100.0 * c / m <= 100.0
  {
    var a := 100.0 * c / m;
    assert a * m == 100.0 * c;
    assert (100.0 - a) * m == 100.0 * (m - c);
  }

  lemma CancelPositive(x: real, y: real, m: real)
    requires 0.0 < m && x * m == y * m
    ensures x == y
  {
    assert (x - y) * m == 0.0;
  }

  /** The analysis in `main` once the tweets are fetched: parse them, then
      aggregate. There is nothing to report exactly when no tweet was fetched. */
  method Report(an: Analyzer, tweets: seq<Tweet>) returns (r: Option<Breakdown>)
    ensures r == Percentages(Parsed(an, tweets))
    ensures r.None? <==> tweets == []
  {
    var parsed := ParseTweets(an, tweets);
    r := Percentages(parsed);
  }

  /** Two original tweets with one text followed by two retweeted tweets with
      another: both originals are kept and the second retweet is dropped, so three
      entries remain; when the first text scores as positive and the second as
      negative, two thirds are positive and one third negative. */
  lemma TwoOriginalsTwoRetweets(an: Analyzer, good: string, bad: string)
    requires good != bad
    ensures var ts := [Tweet(good, 0), Tweet(good, 0), Tweet(bad, 3), Tweet(bad, 5)];
      var g := EntryOf(an, ts[0]);
      var b := EntryOf(an, ts[2]);
      && Parsed(an, ts) == [g, g, b]
      && (g.sentiment == Positive && b.sentiment == Negative ==>
            Percentages(Parsed(an, ts)) == Some(Breakdown(200.0 / 3.0, 100.0 / 3.0)))
  {
    var ts := [Tweet(good, 0), Tweet(good, 0), Tweet(bad, 3), Tweet(bad, 5)];
    var g := EntryOf(an, ts[0]);
    var b := EntryOf(an, ts[2]);
    ExampleParsed(an, good, bad);
    if g.sentiment == Positive && b.sentiment == Negative {
      ExampleShares(g, b);
    }
  }

  lemma {:induction false} ExampleParsed(an: Analyzer, good: string, bad: string)
    requires good != bad
    ensures var ts := [Tweet(good, 0), Tweet(good, 0), Tweet(bad, 3), Tweet(bad, 5)];
      Parsed(an, ts) == [EntryOf(an, ts[0]), EntryOf(an, ts[0]), EntryOf(an, ts[2])]
  {
    var ts := [Tweet(good, 0), Tweet(good, 0), Tweet(bad, 3), Tweet(bad, 5)];
    var g := EntryOf(an, ts[0]);
    var b := EntryOf(an, ts[2]);
    assert g != b;
    assert ts[..1][..0] == [];
    assert ts[..2][..1] == ts[..1];
    assert ts[..3][..2] == ts[..2];
    assert ts[..|ts| - 1] == ts[..3];
    assert Parsed(an, ts[..1]) == [g];
    assert Parsed(an, ts[..2]) == [g, g];
    assert Parsed(an, ts[..3]) == [g, g, b];
  }

  lemma ExampleShares(g: Entry, b: Entry)
    requires g.sentiment == Positive && b.sentiment == Negative
    ensures Percentages([g, g, b]) == Some(Breakdown(200.0 / 3.0, 100.0 / 3.0))
  {
    assert [g, g, b][1..] == [g, b];
    assert [g, b][1..] == [b];
    assert WithLabel([b], Positive) == [];
    assert WithLabel([g, g, b], Positive) == [g, g];
    assert WithLabel([b], Negative) == [b];
    assert WithLabel([g, g, b], Negative) == [b];
  }

  /** The same for "Great day!" and "Bad service". */
  lemma GreatDayBadService(an: Analyzer)
    ensures var ts := [Tweet("Great day!", 0), Tweet("Great day!", 0),
                       Tweet("Bad service", 3), Tweet("Bad service", 5)];
      && |Parsed(an, ts)| == 3
      && (Classify(an, "Great day!") == Positive && Classify(an, "Bad service") == Negative ==>
            Percentages(Parsed(an, ts)) == Some(Breakdown(200.0 / 3.0, 100.0 / 3.0)))
  {
    TwoOriginalsTwoRetweets(an, "Great day!", "Bad service");
  }
}
