/**
 * The labelled URL table the dashboard reads once per page load, the
 * partitions `phish_data[phish_data['Label'] == label]` taken from it, and
 * the `special_char_count` column the page adds to it in place.
 */
module Dataset {
  import opened Wrappers
  import opened UrlText

  /** One row of the table: the `URL` column and the `Label` column (`tag`,
      since `label` is a Dafny keyword). A label is any string; only "good"
      and "bad" are expected. */
  datatype Row = Row(url: string, tag: string)

  const Bad: string := "bad"
  const Good: string := "good"

  /** The rows labelled `tag`, in table order. */
  function Filter(rows: seq<Row>, tag: string): (part: seq<Row>)
    ensures |part| <= |rows|
  {
    if rows == [] then []
    else if rows[0].tag == tag then [rows[0]] + Filter(rows[1..], tag)
    else Filter(rows[1..], tag)
  }

  /** A partition holds exactly the rows of the table with its label. */
  lemma {:induction false} FilterMembers(rows: seq<Row>, tag: string)
    ensures forall r :: r in Filter(rows, tag) <==> r in rows && r.tag == tag
  {
    if rows != [] {
      FilterMembers(rows[1..], tag);
      assert rows == [rows[0]] + rows[1..];
    }
  }

  /** The `URL` column of some rows. */
  function Urls(rows: seq<Row>): (urls: seq<string>)
    ensures |urls| == |rows|
    ensures forall i :: 0 <= i < |rows| ==> urls[i] == rows[i].url
  {
    seq(|rows|, i requires 0 <= i < |rows| => rows[i].url)
  }

  /** `a` is `b` with some elements dropped and the rest kept in order. */
  predicate IsSubsequence<T(==)>(a: seq<T>, b: seq<T>)
    decreases |b|
  {
    if a == [] then true
    else if b == [] then false
    else if a[0] == b[0] then IsSubsequence(a[1..], b[1..])
    else IsSubsequence(a, b[1..])
  }

  /** A partition keeps the rows of the table in their original order. */
  lemma {:induction false} FilterKeepsOrder(rows: seq<Row>, tag: string)
    ensures IsSubsequence(Filter(rows, tag), rows)
  {
    if rows != [] {
      FilterKeepsOrder(rows[1..], tag);
      var part := Filter(rows, tag);
      if rows[0].tag == tag {
        assert part[0] == rows[0] && part[1..] == Filter(rows[1..], tag);
      } else if part != [] {
        FilterMembers(rows, tag);
        assert part[0] in part;
      }
    }
  }

  /** Partitioning a concatenated table partitions each half. */
  lemma {:induction false} FilterAppend(a: seq<Row>, b: seq<Row>, tag: string)
    ensures Filter(a + b, tag) == Filter(a, tag) + Filter(b, tag)
  {
    if a == [] {
      assert a + b == b;
    } else {
      var ab := a + b;
      assert ab[0] == a[0];
      assert ab[1..] == a[1..] + b;
      FilterAppend(a[1..], b, tag);
      var head := if a[0].tag == tag then [a[0]] else [];
      calc {
        Filter(ab, tag);
        head + Filter(a[1..] + b, tag);
        head + (Filter(a[1..], tag) + Filter(b, tag));
        (head + Filter(a[1..], tag)) + Filter(b, tag);
        Filter(a, tag) + Filter(b, tag);
      }
    }
  }

  /** The metric counts shown for the table: `num_bad_urls` and
      `num_good_urls`. */
  function LabelCounts(rows: seq<Row>): (counts: (nat, nat))
    ensures counts.0 + counts.1 <= |rows|
  {
    PartitionsBounded(rows);
    (|Filter(rows, Bad)|, |Filter(rows, Good)|)
  }

  /** The two partitions together never hold more rows than the table, and
      they hold all of it exactly when every label is "good" or "bad". */
  lemma {:induction false} PartitionsBounded(rows: seq<Row>)
    ensures |Filter(rows, Bad)| + |Filter(rows, Good)| <= |rows|
    ensures |Filter(rows, Bad)| + |Filter(rows, Good)| == |rows| <==>
            forall r :: r in rows ==> r.tag == Bad || r.tag == Good
  {
    if rows != [] {
      PartitionsBounded(rows[1..]);
      assert rows == [rows[0]] + rows[1..];
      assert forall r :: r in rows <==> r == rows[0] || r in rows[1..];
    }
  }

  /** A row whose label is neither "good" nor "bad" is in neither
      partition. */
  lemma OtherLabelInNeither(rows: seq<Row>, r: Row)
    requires r.tag != Bad && r.tag != Good
    ensures r !in Filter(rows, Bad) && r !in Filter(rows, Good)
  {
    FilterMembers(rows, Bad);
    FilterMembers(rows, Good);
  }

  /** The special-character count of each URL, in order. */
  function SpecialCounts(urls: seq<string>): (counts: seq<nat>)
    ensures |counts| == |urls|
    ensures forall i :: 0 <= i < |urls| ==> counts[i] <= |urls[i]|
  {
    seq(|urls|, i requires 0 <= i < |urls| => CountSpecial(urls[i]))
  }

  /** The entries of a column that sit on rows labelled `tag`: the
      selection `frame[frame['Label'] == label][column]`. */
  function SelectByLabel(rows: seq<Row>, column: seq<nat>, tag: string): (picked: seq<nat>)
    requires |column| == |rows|
    ensures |picked| == |Filter(rows, tag)|
  {
    if rows == [] then []
    else if rows[0].tag == tag then [column[0]] + SelectByLabel(rows[1..], column[1..], tag)
    else SelectByLabel(rows[1..], column[1..], tag)
  }

  /** Selecting the special-character column by label gives the counts of
      that label's partition: adding the column to the whole table first
      and filtering afterwards agrees with filtering first. */
  lemma {:induction false} SelectSpecialCounts(rows: seq<Row>, tag: string)
    ensures SelectByLabel(rows, SpecialCounts(Urls(rows)), tag)
         == SpecialCounts(Urls(Filter(rows, tag)))
  {
    if rows != [] {
      SelectSpecialCounts(rows[1..], tag);
      var column := SpecialCounts(Urls(rows));
      assert column[1..] == SpecialCounts(Urls(rows[1..]));
      if rows[0].tag == tag {
        var part := Filter(rows, tag);
        assert part == [rows[0]] + Filter(rows[1..], tag);
        assert SpecialCounts(Urls(part))
            == [CountSpecial(rows[0].url)] + SpecialCounts(Urls(Filter(rows[1..], tag)));
      }
    }
  }

  /** The loaded table, with the `special_char_count` column that the page
      adds to it once the dashboard's third row is drawn. */
  class PhishFrame {
    const rows: seq<Row>
    var specialCharCount: Option<seq<nat>>

    /** Once present, the column holds each row's special-character count. */
    ghost predicate Valid()
      reads this
    {
      specialCharCount.Some? ==> specialCharCount.value == SpecialCounts(Urls(rows))
    }

    constructor (rows: seq<Row>)
      ensures Valid()
      ensures this.rows == rows && specialCharCount == None
    {
      this.rows := rows;
      specialCharCount := None;
    }

    /** `phish_data['special_char_count'] = phish_data['URL'].apply(...)`:
        the new column holds every row's special-character count. */
    method AddSpecialCharCount()
      modifies this
      ensures Valid()
      ensures specialCharCount == Some(SpecialCounts(Urls(rows)))
    {
      var column: seq<nat> := [];
      var i := 0;
      while i < |rows|
        invariant 0 <= i <= |rows|
        invariant column == SpecialCounts(Urls(rows[..i]))
      {
        column := column + [CountSpecial(rows[i].url)];
        i := i + 1;
      }
      assert rows[..i] == rows;
      specialCharCount := Some(column);
    }

    /** The column restricted to one label's rows. */
    function SpecialCharCountsOf(tag: string): (counts: seq<nat>)
      reads this
      requires Valid() && specialCharCount.Some?
      ensures counts == SpecialCounts(Urls(Filter(rows, tag)))
    {
      SelectSpecialCounts(rows, tag);
      SelectByLabel(rows, specialCharCount.value, tag)
    }
  }
}
