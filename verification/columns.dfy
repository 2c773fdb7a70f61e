/** The column order of the results table: the preferred columns that are
    present, in the fixed preferred order, then every other column in its
    original order. */
module Columns {
  import opened PyStr

  /** Activity, topic, basic competency, competency indicator. */
  const PreferredColumns: seq<string> := ["النشاط", "الموضوع", "الكفاءة_القاعدية", "مؤشر_الكفاءة"]

  /** `[c for c in preferred_cols if c in df.columns]` */
  function PresentPreferred(preferred: seq<string>, columns: seq<string>): (r: seq<string>)
    ensures |r| <= |preferred|
  {
    Filter(preferred, c => c in columns)
  }

  /** `[c for c in df.columns if c not in preferred_cols]` */
  function OtherColumns(preferred: seq<string>, columns: seq<string>): (r: seq<string>)
    ensures |r| <= |columns|
  {
    Filter(columns, c => c !in preferred)
  }

  /** `final_cols` for a given preferred list: the two comprehensions
      concatenated. */
  function Arrange(preferred: seq<string>, columns: seq<string>): (r: seq<string>)
    ensures |r| <= |preferred| + |columns|
  {
    PresentPreferred(preferred, columns) + OtherColumns(preferred, columns)
  }

  /** `final_cols` with the page's own preferred list. */
  function OrderColumns(columns: seq<string>): (r: seq<string>)
    ensures |r| <= |PreferredColumns| + |columns|
  {
    Arrange(PreferredColumns, columns)
  }

  /** No column is added or dropped: a name is in the result exactly when
      it is among the input columns. */
  lemma SameColumns(preferred: seq<string>, columns: seq<string>, c: string)
    ensures c in Arrange(preferred, columns) <==> c in columns
  {
    FilterMember(preferred, x => x in columns, c);
    FilterMember(columns, x => x !in preferred, c);
  }

  /** The result starts with the present preferred columns: a name is
      among the first `|PresentPreferred(preferred, columns)|` entries
      exactly when it is preferred and present, and they keep the preferred
      order. */
  lemma PreferredFirst(preferred: seq<string>, columns: seq<string>)
    ensures var k := |PresentPreferred(preferred, columns)|;
            var r := Arrange(preferred, columns);
            && k <= |preferred|
            && (forall c :: c in r[..k] <==> c in preferred && c in columns)
            && IsSubsequence(r[..k], preferred)
  {
    var present, others := PresentPreferred(preferred, columns), OtherColumns(preferred, columns);
    assert (present + others)[..|present|] == present;
    FilterIsSubsequence(preferred, c => c in columns);
    forall c ensures c in present <==> c in preferred && c in columns {
      FilterMember(preferred, x => x in columns, c);
    }
  }

  /** After the preferred columns come the others: a name is among the
      remaining entries exactly when it is a column that is not preferred,
      and they keep their original relative order. */
  lemma OthersAfter(preferred: seq<string>, columns: seq<string>)
    ensures var k := |PresentPreferred(preferred, columns)|;
            var r := Arrange(preferred, columns);
            && (forall c :: c in r[k..] <==> c in columns && c !in preferred)
            && IsSubsequence(r[k..], columns)
  {
    var present, others := PresentPreferred(preferred, columns), OtherColumns(preferred, columns);
    assert (present + others)[|present|..] == others;
    FilterIsSubsequence(columns, c => c !in preferred);
    forall c ensures c in others <==> c in columns && c !in preferred {
      FilterMember(columns, x => x !in preferred, c);
    }
  }

  /** With distinct preferred names and distinct column names every name
      occurs in the result as often as among the columns. */
  lemma ArrangeCounts(preferred: seq<string>, columns: seq<string>)
    requires Distinct(preferred) && Distinct(columns)
    ensures multiset(Arrange(preferred, columns)) == multiset(columns)
  {
    var present, others := PresentPreferred(preferred, columns), OtherColumns(preferred, columns);
    FilterDistinct(preferred, c => c in columns);
    FilterDistinct(columns, c => c !in preferred);
    forall c ensures multiset(present + others)[c] == multiset(columns)[c] {
      FilterMember(preferred, x => x in columns, c);
      FilterMember(columns, x => x !in preferred, c);
      DistinctCount(present, c);
      DistinctCount(others, c);
      DistinctCount(columns, c);
    }
  }

  /** With distinct column names no name appears twice in the result. */
  lemma ArrangeDistinct(preferred: seq<string>, columns: seq<string>)
    requires Distinct(preferred) && Distinct(columns)
    ensures Distinct(Arrange(preferred, columns))
  {
    var present, others := PresentPreferred(preferred, columns), OtherColumns(preferred, columns);
    FilterDistinct(preferred, c => c in columns);
    FilterDistinct(columns, c => c !in preferred);
    var r := present + others;
    forall i, j | 0 <= i < j < |r| ensures r[i] != r[j] {
      if j < |present| {
        assert r[i] == present[i] && r[j] == present[j];
      } else if i >= |present| {
        assert r[i] == others[i - |present|] && r[j] == others[j - |present|];
      } else {
        assert r[i] == present[i] && r[j] == others[j - |present|];
        FilterMember(preferred, x => x in columns, r[i]);
        FilterMember(columns, x => x !in preferred, r[j]);
      }
    }
  }

  /** With distinct preferred names and distinct column names the result is
      a permutation of the input: the same names, each exactly once, so
      also the same number of columns. */
  lemma ArrangePermutation(preferred: seq<string>, columns: seq<string>)
    requires Distinct(preferred) && Distinct(columns)
    ensures multiset(Arrange(preferred, columns)) == multiset(columns)
    ensures |Arrange(preferred, columns)| == |columns|
    ensures Distinct(Arrange(preferred, columns))
  {
    ArrangeCounts(preferred, columns);
    ArrangeDistinct(preferred, columns);
    assert |multiset(Arrange(preferred, columns))| == |multiset(columns)|;
  }

  /** Arranging an already arranged column list changes nothing. */
  lemma ArrangeIdempotent(preferred: seq<string>, columns: seq<string>)
    ensures Arrange(preferred, Arrange(preferred, columns)) == Arrange(preferred, columns)
  {
    var r := Arrange(preferred, columns);
    var present, others := PresentPreferred(preferred, columns), OtherColumns(preferred, columns);
    forall c | c in preferred ensures (c in r) == (c in columns) {
      SameColumns(preferred, columns, c);
    }
    FilterAgree(preferred, c => c in r, c => c in columns);
    assert PresentPreferred(preferred, r) == present;
    FilterConcat(present, others, c => c !in preferred);
    forall c | c in present ensures c in preferred {
      FilterMember(preferred, x => x in columns, c);
    }
    FilterNone(present, c => c !in preferred);
    forall c | c in others ensures c !in preferred {
      FilterMember(columns, x => x !in preferred, c);
    }
    FilterAll(others, c => c !in preferred);
    assert OtherColumns(preferred, r) == others;
  }

  /** The page's four preferred names are pairwise different. */
  lemma PreferredColumnsDistinct()
    ensures Distinct(PreferredColumns)
  {
  }

  /** With distinct column names the page's order is a permutation of the
      DataFrame's columns. */
  lemma ColumnsPermutation(columns: seq<string>)
    requires Distinct(columns)
    ensures multiset(OrderColumns(columns)) == multiset(columns)
    ensures |OrderColumns(columns)| == |columns|
    ensures Distinct(OrderColumns(columns))
  {
    PreferredColumnsDistinct();
    ArrangePermutation(PreferredColumns, columns);
  }
}
