/** The stream operations a data source applies to a list of rows:
    `filter` and `map`, each collected back into a list. */
module RowLists {
  import opened Text

  /** `rows.stream().filter(keep).collect(toList())`: the rows that satisfy
      `keep`, in their original order. */
  function Filter<T(!new)>(rows: seq<T>, keep: T -> bool): (r: seq<T>)
    ensures |r| <= |rows|
    ensures forall x | x in r :: x in rows && keep(x)
    ensures forall x | x in rows && keep(x) :: x in r
    decreases |rows|
  {
    if rows == [] then []
    else
      var tail := Filter(rows[1..], keep);
      if keep(rows[0]) then [rows[0]] + tail else tail
  }

  /** Each kept element occurs as often as in the input; the others not at all. */
  lemma {:induction false} FilterCount<T(!new)>(rows: seq<T>, keep: T -> bool, x: T)
    ensures multiset(Filter(rows, keep))[x] == if keep(x) then multiset(rows)[x] else 0
    decreases |rows|
  {
    if rows != [] {
      assert rows == [rows[0]] + rows[1..];
      FilterCount(rows[1..], keep, x);
    }
  }

  /** `rows.stream().map(f).collect(toList())`. */
  function Map<T, U>(rows: seq<T>, f: T -> U): (r: seq<U>)
    ensures |r| == |rows|
    ensures forall k | 0 <= k < |rows| :: r[k] == f(rows[k])
  {
    seq(|rows|, k requires 0 <= k < |rows| => f(rows[k]))
  }

  /** Filtering distributes over concatenation, so it keeps relative order. */
  lemma {:induction false} FilterAppend<T(!new)>(a: seq<T>, b: seq<T>, keep: T -> bool)
    ensures Filter(a + b, keep) == Filter(a, keep) + Filter(b, keep)
    decreases |a|
  {
    if a == [] {
      assert a + b == b;
    } else {
      var front := if keep(a[0]) then [a[0]] else [];
      ConsTail(a, b);
      FilterHead(a + b, keep);
      FilterHead(a, keep);
      FilterAppend(a[1..], b, keep);
      Regroup(front, Filter(a[1..], keep), Filter(b, keep), Filter(a[1..] + b, keep), Filter(a + b, keep), Filter(a, keep));
    }
  }

  lemma {:induction false} Regroup<T>(front: seq<T>, x: seq<T>, y: seq<T>, xy: seq<T>, whole: seq<T>, fx: seq<T>)
    requires xy == x + y && whole == front + xy && fx == front + x
    ensures whole == fx + y
  {
  }

  /** Filtering a non-empty sequence: its head, if kept, then the rest filtered. */
  lemma {:induction false} FilterHead<T(!new)>(s: seq<T>, keep: T -> bool)
    requires s != []
    ensures Filter(s, keep) == (if keep(s[0]) then [s[0]] else []) + Filter(s[1..], keep)
  {
  }

  /** Rows that all pass the filter come through unchanged. */
  lemma {:induction false} FilterAllKept<T(!new)>(rows: seq<T>, keep: T -> bool)
    requires forall x | x in rows :: keep(x)
    ensures Filter(rows, keep) == rows
    decreases |rows|
  {
    if rows != [] {
      assert forall x | x in rows[1..] :: x in rows;
      FilterAllKept(rows[1..], keep);
    }
  }

  /** Filtering twice with the same predicate is filtering once. */
  lemma FilterIdempotent<T(!new)>(rows: seq<T>, keep: T -> bool)
    ensures Filter(Filter(rows, keep), keep) == Filter(rows, keep)
  {
    FilterAllKept(Filter(rows, keep), keep);
  }

  /** Two filters in a row keep exactly the rows that pass both. */
  lemma {:induction false} FilterFilter<T(!new)>(rows: seq<T>, p: T -> bool, q: T -> bool, both: T -> bool)
    requires forall x :: both(x) == (p(x) && q(x))
    ensures Filter(Filter(rows, p), q) == Filter(rows, both)
    decreases |rows|
  {
    if rows != [] {
      FilterFilter(rows[1..], p, q, both);
    }
  }

  /** Mapping distributes over concatenation. */
  lemma MapAppend<T, U>(a: seq<T>, b: seq<T>, f: T -> U)
    ensures Map(a + b, f) == Map(a, f) + Map(b, f)
  {
  }
}

/** ListDataSource: the eager data source over a list held in memory. */
module ListSources {
  import opened Wrappers
  import opened Errors
  import opened DataRows
  import opened RowLists

  /** The source keeps its own copy of the rows it was given. */
  datatype ListSource = ListSource(rows: seq<Row>)

  /** `new ListDataSource(rows)`: a null list throws NullPointerException. */
  function NewListSource(rows: Option<seq<Row>>): (r: Result<ListSource, Error>)
    ensures rows.None? <==> r.Err?
    ensures r.Err? ==> r.error == Error(NullPointer, "Rows cannot be null")
    ensures r.Ok? ==> ToList(r.value) == rows.value
  {
    if rows.None? then Err(Error(NullPointer, "Rows cannot be null"))
    else Ok(ListSource(rows.value))
  }

  /** `filter(predicate)`: a null predicate throws; otherwise a new source
      holds the rows that pass, in order, and the receiver is unchanged. */
  function FilterSource(src: ListSource, keep: Option<Row -> bool>): (r: Result<ListSource, Error>)
    ensures keep.None? <==> r.Err?
    ensures r.Err? ==> r.error == Error(NullPointer, "Predicate cannot be null")
    ensures r.Ok? ==> forall x | x in ToList(r.value) :: x in ToList(src) && keep.value(x)
    ensures r.Ok? ==> forall x | x in ToList(src) && keep.value(x) :: x in ToList(r.value)
  {
    if keep.None? then Err(Error(NullPointer, "Predicate cannot be null"))
    else Ok(ListSource(Filter(src.rows, keep.value)))
  }

  /** `transform(consumer)`: a null consumer throws; otherwise the receiver is
      returned as it is, the consumer never being run. */
  function TransformSource(src: ListSource, transformer: Option<Row -> Row>): (r: Result<ListSource, Error>)
    ensures transformer.None? <==> r.Err?
    ensures r.Err? ==> r.error == Error(NullPointer, "Transformer cannot be null")
    ensures r.Ok? ==> ToList(r.value) == ToList(src)
  {
    if transformer.None? then Err(Error(NullPointer, "Transformer cannot be null"))
    else Ok(src)
  }

  /** `toList()`: an unmodifiable copy of the stored rows. */
  function ToList(src: ListSource): seq<Row> {
    src.rows
  }

  /** Filtering a source and listing it is filtering its list, and filtering
      again with the same predicate changes nothing. */
  lemma FilterThenList(src: ListSource, p: Row -> bool)
    ensures var once := FilterSource(src, Some(p)).value;
      && ToList(once) == Filter(ToList(src), p)
      && FilterSource(once, Some(p)).value == once
  {
    FilterIdempotent(src.rows, p);
  }

  /** Two chained filters keep exactly the rows that pass both predicates. */
  lemma FilterChain(src: ListSource, p: Row -> bool, q: Row -> bool, both: Row -> bool)
    requires forall x :: both(x) == (p(x) && q(x))
    ensures ToList(FilterSource(FilterSource(src, Some(p)).value, Some(q)).value) == ToList(FilterSource(src, Some(both)).value)
  {
    FilterFilter(src.rows, p, q, both);
  }
}
