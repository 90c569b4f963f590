/**
 * The per-partition summaries the dashboard draws: how often each keyword
 * appears in a partition's URLs, and the ten most frequent top-level
 * domains of a partition.
 */
module Analytics {
  import opened UrlText
  import opened Dataset

  // ---------------------------------------------------------------------
  // Keyword frequency
  // ---------------------------------------------------------------------

  /** The keywords whose frequency the dashboard charts. */
  const Keywords: seq<string> := ["login", "bank", "search", "secure", "account"]

  /** `count_keywords(urls, keyword)`: the sum over the URLs of Python's
      `url.count(keyword)`. */
  function CountKeywords(urls: seq<string>, keyword: string): (total: nat)
    ensures keyword == [] ==> total == TotalLength(urls) + |urls|
    ensures keyword != [] ==> total * |keyword| <= TotalLength(urls)
  {
    if urls == [] then 0
    else
      var head := PyCount(urls[0], keyword);
      var rest := CountKeywords(urls[1..], keyword);
      MulDistributes(head, rest, |keyword|);
      head + rest
  }

  /** The number of characters in all the URLs together. */
  function TotalLength(urls: seq<string>): nat
  {
    if urls == [] then 0 else |urls[0]| + TotalLength(urls[1..])
  }

  /** Counting over no URLs gives nothing. */
  lemma CountKeywordsEmpty(keyword: string)
    ensures CountKeywords([], keyword) == 0
  {
  }

  /** Keyword counts add up over a concatenation of URL lists. */
  lemma {:induction false} CountKeywordsAppend(a: seq<string>, b: seq<string>, keyword: string)
    ensures CountKeywords(a + b, keyword) == CountKeywords(a, keyword) + CountKeywords(b, keyword)
  {
    if a == [] {
      assert a + b == b;
    } else {
      CountKeywordsAppend(a[1..], b, keyword);
      assert (a + b)[1..] == a[1..] + b;
    }
  }

  /** A non-empty keyword is counted at least once exactly when some URL
      contains it. */
  lemma {:induction false} CountKeywordsPositive(urls: seq<string>, keyword: string)
    requires keyword != []
    ensures CountKeywords(urls, keyword) > 0 <==> exists i :: 0 <= i < |urls| && Occurs(urls[i], keyword)
  {
    if urls != [] {
      CountKeywordsPositive(urls[1..], keyword);
      PyCountPositive(urls[0], keyword);
      if exists i :: 0 <= i < |urls| && Occurs(urls[i], keyword) {
        var i :| 0 <= i < |urls| && Occurs(urls[i], keyword);
        if i > 0 {
          assert urls[1..][i - 1] == urls[i];
        }
      }
      if exists i :: 0 <= i < |urls| - 1 && Occurs(urls[1..][i], keyword) {
        var i :| 0 <= i < |urls| - 1 && Occurs(urls[1..][i], keyword);
        assert urls[i + 1] == urls[1..][i];
      }
    }
  }

  /** `{keyword: count_keywords(urls, keyword) for keyword in keywords}`. */
  function KeywordCounts(urls: seq<string>): (counts: map<string, nat>)
    ensures counts.Keys == {"login", "bank", "search", "secure", "account"}
    ensures forall k :: k in counts ==> counts[k] == CountKeywords(urls, k)
  {
    map k | k in Keywords :: CountKeywords(urls, k)
  }

  /** The keyword chart of one partition of the table. */
  function KeywordFrequency(rows: seq<Row>, tag: string): (counts: map<string, nat>)
    ensures counts.Keys == {"login", "bank", "search", "secure", "account"}
    ensures forall k :: k in counts ==> counts[k] == CountKeywords(Urls(Filter(rows, tag)), k)
  {
    KeywordCounts(Urls(Filter(rows, tag)))
  }

  /** Each keyword's count for a table split in two is the sum of its
      counts for the two halves. */
  lemma KeywordFrequencyAppend(a: seq<Row>, b: seq<Row>, tag: string, k: string)
    requires k in Keywords
    ensures KeywordFrequency(a + b, tag)[k] == KeywordFrequency(a, tag)[k] + KeywordFrequency(b, tag)[k]
  {
    FilterAppend(a, b, tag);
    assert Urls(Filter(a + b, tag)) == Urls(Filter(a, tag)) + Urls(Filter(b, tag));
    CountKeywordsAppend(Urls(Filter(a, tag)), Urls(Filter(b, tag)), k);
  }

  // ---------------------------------------------------------------------
  // Top-level-domain frequency
  // ---------------------------------------------------------------------

  /** `urls.apply(lambda x: x.split('.')[-1])`. */
  function Tlds(urls: seq<string>): (tlds: seq<string>)
    ensures |tlds| == |urls|
    ensures forall i :: 0 <= i < |urls| ==> tlds[i] == Tld(urls[i])
  {
    seq(|urls|, i requires 0 <= i < |urls| => Tld(urls[i]))
  }

  /** How many times `x` appears in `xs`. */
  function Freq(xs: seq<string>, x: string): nat
  {
    if xs == [] then 0
    else (if xs[0] == x then 1 else 0) + Freq(xs[1..], x)
  }

  predicate NoDuplicates<T(==)>(xs: seq<T>)
  {
    forall i, j :: 0 <= i < j < |xs| ==> xs[i] != xs[j]
  }

  /** The tail of a duplicate-free list is duplicate-free and misses the head. */
  lemma NoDuplicatesTail<T>(xs: seq<T>)
    requires xs != [] && NoDuplicates(xs)
    ensures NoDuplicates(xs[1..]) && xs[0] !in xs[1..]
  {
  }

  /** Putting in front of a duplicate-free list a value it lacks keeps it
      duplicate-free. */
  lemma NoDuplicatesCons<T>(x: T, xs: seq<T>)
    requires NoDuplicates(xs) && x !in xs
    ensures NoDuplicates([x] + xs)
  {
  }

  /** The distinct values of `xs`, in order of first appearance. */
  function Distinct(xs: seq<string>): (ds: seq<string>)
    ensures NoDuplicates(ds)
    ensures forall x :: x in ds <==> x in xs
  {
    if xs == [] then []
    else
      var ds := Distinct(xs[..|xs| - 1]);
      assert xs == xs[..|xs| - 1] + [xs[|xs| - 1]];
      if xs[|xs| - 1] in ds then ds else ds + [xs[|xs| - 1]]
  }

  /** The first of `candidates` whose frequency in `xs` is largest. */
  function MostFrequent(candidates: seq<string>, xs: seq<string>): (m: string)
    requires candidates != []
    ensures m in candidates
    ensures forall c :: c in candidates ==> Freq(xs, c) <= Freq(xs, m)
  {
    if |candidates| == 1 then candidates[0]
    else
      var m := MostFrequent(candidates[1..], xs);
      assert candidates == [candidates[0]] + candidates[1..];
      if Freq(xs, candidates[0]) >= Freq(xs, m) then candidates[0] else m
  }

  /** `xs` with `x` taken out. */
  function Without(xs: seq<string>, x: string): (r: seq<string>)
    ensures forall y :: y in r <==> y in xs && y != x
  {
    if xs == [] then []
    else if xs[0] == x then Without(xs[1..], x)
    else [xs[0]] + Without(xs[1..], x)
  }

  /** Taking a value out of a duplicate-free list removes exactly one entry
      when it was there and keeps the list duplicate-free. */
  lemma {:induction false} WithoutNoDuplicates(xs: seq<string>, x: string)
    requires NoDuplicates(xs)
    ensures NoDuplicates(Without(xs, x))
    ensures x in xs ==> |Without(xs, x)| == |xs| - 1
    ensures x !in xs ==> |Without(xs, x)| == |xs|
  {
    if xs != [] {
      NoDuplicatesTail(xs);
      WithoutNoDuplicates(xs[1..], x);
      assert xs == [xs[0]] + xs[1..];
      if xs[0] != x {
        NoDuplicatesCons(xs[0], Without(xs[1..], x));
      }
    }
  }

  /** `top` lists `n` of `candidates` (all of them when there are fewer),
      each once, by non-increasing frequency in `xs`, and no candidate left
      out is more frequent than any listed one. */
  ghost predicate IsTopN(top: seq<string>, candidates: seq<string>, xs: seq<string>, n: nat)
  {
    && |top| == (if n < |candidates| then n else |candidates|)
    && NoDuplicates(top)
    && (forall t :: t in top ==> t in candidates)
    && (forall i, j :: 0 <= i < j < |top| ==> Freq(xs, top[i]) >= Freq(xs, top[j]))
    && (forall t, c :: t in top && c in candidates && c !in top ==> Freq(xs, c) <= Freq(xs, t))
    && (|top| < n ==> forall c :: c in candidates ==> c in top)
  }

  /** The `n` most frequent of `candidates`, most frequent first:
      `value_counts().index[:n]`. Among equally frequent values the one
      listed first in `candidates` is taken first. */
  function Top(candidates: seq<string>, xs: seq<string>, n: nat): (top: seq<string>)
    requires NoDuplicates(candidates)
    ensures IsTopN(top, candidates, xs, n)
    decreases n
  {
    if n == 0 || candidates == [] then []
    else
      var m := MostFrequent(candidates, xs);
      WithoutNoDuplicates(candidates, m);
      var rest := Top(Without(candidates, m), xs, n - 1);
      TopStep(candidates, xs, n, m, rest);
      [m] + rest
  }

  /** Putting the most frequent candidate in front of the top `n - 1` of
      the others gives the top `n`. */
  lemma TopStep(candidates: seq<string>, xs: seq<string>, n: nat, m: string, rest: seq<string>)
    requires NoDuplicates(candidates) && n > 0
    requires m in candidates
    requires forall c :: c in candidates ==> Freq(xs, c) <= Freq(xs, m)
    requires IsTopN(rest, Without(candidates, m), xs, n - 1)
    ensures IsTopN([m] + rest, candidates, xs, n)
  {
    var others := Without(candidates, m);
    WithoutNoDuplicates(candidates, m);
    var top := [m] + rest;
    assert m !in rest;
    NoDuplicatesCons(m, rest);
    forall i, j | 0 <= i < j < |top|
      ensures Freq(xs, top[i]) >= Freq(xs, top[j])
    {
      assert top[j] == rest[j - 1] && top[j] in candidates;
      if i > 0 {
        assert top[i] == rest[i - 1];
      }
    }
    forall t, c | t in top && c in candidates && c !in top
      ensures Freq(xs, c) <= Freq(xs, t)
    {
      assert c in others;
    }
    if |top| < n {
      forall c | c in candidates
        ensures c in top
      {
        if c != m {
          assert c in others;
        }
      }
    }
  }

  /** Every top-level domain taken from a partition belongs to one of its
      rows. */
  lemma TldsFromPartition(rows: seq<Row>, tag: string)
    ensures forall t :: t in Tlds(Urls(Filter(rows, tag))) ==>
              exists r :: r in rows && r.tag == tag && Tld(r.url) == t
  {
    var part := Filter(rows, tag);
    var tlds := Tlds(Urls(part));
    FilterMembers(rows, tag);
    forall t | t in tlds
      ensures exists r :: r in rows && r.tag == tag && Tld(r.url) == t
    {
      var i :| 0 <= i < |tlds| && tlds[i] == t;
      var r := part[i];
      assert r in part;
      assert r in rows && r.tag == tag && Tld(r.url) == t;
    }
  }

  /** `top_tlds.value_counts().index[:10]` for the partition labelled
      `tag`: at most ten of its top-level domains, distinct, each found in
      the partition, most frequent first, and none left out that is more
      frequent than one kept; when fewer than ten are kept, none is left
      out. */
  function TopTlds(rows: seq<Row>, tag: string): (top: seq<string>)
    ensures |top| <= 10
    ensures NoDuplicates(top)
    ensures forall t :: t in top ==> exists r :: r in rows && r.tag == tag && Tld(r.url) == t
    ensures var tlds := Tlds(Urls(Filter(rows, tag)));
            && (forall i, j :: 0 <= i < j < |top| ==> Freq(tlds, top[i]) >= Freq(tlds, top[j]))
            && (forall t, c :: t in top && c in tlds && c !in top ==> Freq(tlds, c) <= Freq(tlds, t))
            && (|top| < 10 ==> forall c :: c in tlds ==> c in top)
  {
    var tlds := Tlds(Urls(Filter(rows, tag)));
    TldsFromPartition(rows, tag);
    Top(Distinct(tlds), tlds, 10)
  }

  /** Two rows, one of each label: each partition's chart shows just its
      own top-level domain (for instance "com" for a good
      "http://good.com" and "ru" for a bad "http://bad.ru"). */
  lemma TwoRowScenario(goodHost: string, goodTld: string, badHost: string, badTld: string)
    requires '.' !in goodTld && '.' !in badTld
    ensures var rows := [Row(goodHost + ['.'] + goodTld, Good), Row(badHost + ['.'] + badTld, Bad)];
            TopTlds(rows, Bad) == [badTld] && TopTlds(rows, Good) == [goodTld]
  {
    var rows := [Row(goodHost + ['.'] + goodTld, Good), Row(badHost + ['.'] + badTld, Bad)];
    TldAfterLastDot(badHost, badTld);
    TldAfterLastDot(goodHost, goodTld);
    assert Filter(rows, Bad) == [rows[1]];
    assert Filter(rows, Good) == [rows[0]];
    assert Tlds(Urls([rows[1]])) == [badTld];
    assert Tlds(Urls([rows[0]])) == [goodTld];
    SingleTop(badTld);
    SingleTop(goodTld);
  }

  /** A partition with a single row charts just that row's domain. */
  lemma SingleTop(t: string)
    ensures Top(Distinct([t]), [t], 10) == [t]
  {
  }
}
