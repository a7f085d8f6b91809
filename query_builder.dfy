/**
 * The query builder `generate_pairs`: deduplicate the gene symbols, take every
 * 2-combination of the distinct symbols (in the order `itertools.combinations`
 * produces them) and format each as the PubMed term `"<a> AND <b>"`.
 *
 * Python's `list(set(genes))` fixes no order, so the order of the distinct
 * symbols is a parameter: any sequence that lists each symbol of the input
 * exactly once (`IsDedup`). `Dedup` exhibits one such order for every input.
 */
module QueryBuilder {

  /** No element occurs twice. */
  predicate Distinct<T(==)>(s: seq<T>) {
    forall i, j :: 0 <= i < j < |s| ==> s[i] != s[j]
  }

  /** `order` lists every element of `s` once and nothing else: a possible `list(set(s))`. */
  predicate IsDedup<T(==)>(s: seq<T>, order: seq<T>) {
    && Distinct(order)
    && (forall i :: 0 <= i < |order| ==> order[i] in s)
    && (forall i :: 0 <= i < |s| ==> s[i] in order)
  }

  /** The distinct symbols of the input. */
  function Symbols<T(==)>(s: seq<T>): set<T> {
    set x | x in s
  }

  /** One admissible order for `list(set(s))`: each element at its first occurrence. */
  function Dedup<T(==)>(s: seq<T>): (d: seq<T>)
    ensures IsDedup(s, d)
  {
    if |s| == 0 then []
    else
      var init := s[..|s| - 1];
      var d' := Dedup(init);
      assert s == init + [s[|s| - 1]];
      if s[|s| - 1] in d' then d' else d' + [s[|s| - 1]]
  }

  /** A sequence without repetitions has as many distinct elements as entries. */
  lemma {:induction false} DistinctCardinality<T>(s: seq<T>)
    requires Distinct(s)
    ensures |Symbols(s)| == |s|
  {
    if |s| > 0 {
      DistinctCardinality(s[1..]);
      assert Symbols(s) == {s[0]} + Symbols(s[1..]);
      assert s[0] !in Symbols(s[1..]);
    }
  }

  /** The pairs `(x, y)` for each `y` of `rest`, in order. */
  function WithFirst<T(==)>(x: T, rest: seq<T>): (r: seq<(T, T)>)
    ensures |r| == |rest|
    ensures forall k :: 0 <= k < |rest| ==> r[k] == (x, rest[k])
  {
    seq(|rest|, k requires 0 <= k < |rest| => (x, rest[k]))
  }

  /** `itertools.combinations(l, 2)`: `(l[i], l[j])` for all `i < j`, lexicographically by index. */
  function Combinations2<T(==)>(l: seq<T>): (r: seq<(T, T)>)
    ensures |r| == |l| * (|l| - 1) / 2
  {
    if |l| == 0 then []
    else
      var n := |l|;
      assert n * (n - 1) == 2 * (n - 1) + (n - 1) * (n - 2);
      WithFirst(l[0], l[1..]) + Combinations2(l[1..])
  }

  /** Every combination is a pair of elements at two increasing positions. */
  lemma {:induction false} CombinationsSound<T>(l: seq<T>, p: nat)
    requires p < |Combinations2(l)|
    ensures exists i, j :: 0 <= i < j < |l| && Combinations2(l)[p] == (l[i], l[j])
  {
    var r := Combinations2(l);
    if p < |l| - 1 {
      assert r[p] == (l[0], l[p + 1]);
    } else {
      var p' := p - (|l| - 1);
      CombinationsSound(l[1..], p');
      var i, j :| 0 <= i < j < |l| - 1 && Combinations2(l[1..])[p'] == (l[1..][i], l[1..][j]);
      assert r[p] == (l[i + 1], l[j + 1]);
    }
  }

  /** Every pair of elements at two increasing positions is a combination. */
  lemma {:induction false} CombinationsComplete<T>(l: seq<T>, i: nat, j: nat)
    requires i < j < |l|
    ensures exists p :: 0 <= p < |Combinations2(l)| && Combinations2(l)[p] == (l[i], l[j])
  {
    var r := Combinations2(l);
    if i == 0 {
      assert r[j - 1] == (l[0], l[j]);
    } else {
      CombinationsComplete(l[1..], i - 1, j - 1);
      var p' :| 0 <= p' < |Combinations2(l[1..])| && Combinations2(l[1..])[p'] == (l[1..][i - 1], l[1..][j - 1]);
      assert r[p' + |l| - 1] == (l[i], l[j]);
    }
  }

  /** `t` and `u` name the same unordered pair. */
  predicate SameUnordered<T(==)>(t: (T, T), u: (T, T)) {
    t == u || t == (u.1, u.0)
  }

  /** On distinct elements no combination pairs a symbol with itself. */
  lemma CombinationsIrreflexive<T>(l: seq<T>, p: nat)
    requires Distinct(l) && p < |Combinations2(l)|
    ensures Combinations2(l)[p].0 != Combinations2(l)[p].1
  {
    CombinationsSound(l, p);
  }

  /** On distinct elements no unordered pair occurs at two positions of the combinations. */
  lemma {:induction false} CombinationsUnique<T>(l: seq<T>, p: nat, q: nat)
    requires Distinct(l) && p < q < |Combinations2(l)|
    ensures !SameUnordered(Combinations2(l)[p], Combinations2(l)[q])
  {
    var r := Combinations2(l);
    var m := |l| - 1;
    if q < m {
      assert r[p] == (l[0], l[p + 1]) && r[q] == (l[0], l[q + 1]);
    } else if p < m {
      assert r[p] == (l[0], l[p + 1]);
      CombinationsSound(l[1..], q - m);
      var i, j :| 0 <= i < j < m && Combinations2(l[1..])[q - m] == (l[1..][i], l[1..][j]);
      assert r[q] == (l[i + 1], l[j + 1]);
    } else {
      assert Distinct(l[1..]);
      CombinationsUnique(l[1..], p - m, q - m);
      assert r[p] == Combinations2(l[1..])[p - m] && r[q] == Combinations2(l[1..])[q - m];
    }
  }

  /** The search term for one gene pair (app1.py line 142). */
  function Format(a: string, b: string): string {
    a + " AND " + b
  }

  /** The separator of a formatted term starts right after its first symbol. */
  lemma FormatSplitsAfterFirst(a: string, b: string)
    ensures |Format(a, b)| == |a| + 5 + |b|
    ensures Format(a, b)[..|a|] == a && Format(a, b)[|a|..|a| + 5] == " AND " && Format(a, b)[|a| + 5..] == b
    ensures Format(a, b)[|a|] == ' '
  {
  }

  /** No space occurs in a formatted term before the end of a space-free first symbol. */
  lemma FormatNoSpaceBefore(a: string, b: string, k: int)
    requires ' ' !in a && 0 <= k < |a|
    ensures Format(a, b)[k] != ' '
  {
    assert Format(a, b)[k] == a[k];
  }

  /**
   * Formatted terms determine their pair when the first symbols contain no
   * space. (Without that, `"x AND" AND "y"` and `"x" AND "AND y"` collide.)
   */
  lemma FormatInjective(a: string, b: string, c: string, d: string)
    requires ' ' !in a && ' ' !in c
    requires Format(a, b) == Format(c, d)
    ensures a == c && b == d
  {
    FormatSplitsAfterFirst(a, b);
    FormatSplitsAfterFirst(c, d);
    var s := Format(a, b);
    if |a| < |c| {
      FormatNoSpaceBefore(c, d, |a|);
      assert false;
    } else if |c| < |a| {
      FormatNoSpaceBefore(a, b, |c|);
      assert false;
    }
  }

  /** `generate_pairs(genes)`, with `order` the iteration order of `set(genes)`. */
  function GeneratePairs(genes: seq<string>, order: seq<string>): (r: seq<string>)
    requires IsDedup(genes, order)
    ensures |r| == |Symbols(genes)| * (|Symbols(genes)| - 1) / 2
  {
    var pairs := Combinations2(order);
    DistinctCardinality(order);
    assert Symbols(order) == Symbols(genes);
    seq(|pairs|, k requires 0 <= k < |pairs| => Format(pairs[k].0, pairs[k].1))
  }

  /** Each term is `"a AND b"` for two different input symbols. */
  lemma GeneratePairsEntry(genes: seq<string>, order: seq<string>, k: nat)
    requires IsDedup(genes, order) && k < |GeneratePairs(genes, order)|
    ensures exists a, b :: a in genes && b in genes && a != b && GeneratePairs(genes, order)[k] == Format(a, b)
  {
    var t := Combinations2(order)[k];
    CombinationsSound(order, k);
    CombinationsIrreflexive(order, k);
    assert t.0 in order && t.1 in order;
    assert GeneratePairs(genes, order)[k] == Format(t.0, t.1);
  }

  /** Every unordered pair of different input symbols has a term, in one orientation or the other. */
  lemma GeneratePairsComplete(genes: seq<string>, order: seq<string>, a: string, b: string)
    requires IsDedup(genes, order)
    requires a in genes && b in genes && a != b
    ensures exists k :: 0 <= k < |GeneratePairs(genes, order)| &&
                        GeneratePairs(genes, order)[k] in {Format(a, b), Format(b, a)}
  {
    assert a in order && b in order;
    var i :| 0 <= i < |order| && order[i] == a;
    var j :| 0 <= j < |order| && order[j] == b;
    var r := GeneratePairs(genes, order);
    if i < j {
      CombinationsComplete(order, i, j);
      var p :| 0 <= p < |Combinations2(order)| && Combinations2(order)[p] == (a, b);
      assert r[p] == Format(a, b);
    } else {
      CombinationsComplete(order, j, i);
      var p :| 0 <= p < |Combinations2(order)| && Combinations2(order)[p] == (b, a);
      assert r[p] == Format(b, a);
    }
  }

  /** Two terms that both name the pair `{a, b}` come from the same unordered pair, when no first symbol holds a space. */
  lemma SameNameSamePair(s: (string, string), t: (string, string), a: string, b: string)
    requires ' ' !in s.0 && ' ' !in t.0 && ' ' !in a && ' ' !in b
    requires Format(s.0, s.1) in {Format(a, b), Format(b, a)}
    requires Format(t.0, t.1) in {Format(a, b), Format(b, a)}
    ensures SameUnordered(s, t)
  {
    if Format(s.0, s.1) == Format(a, b) { FormatInjective(s.0, s.1, a, b); }
    else { FormatInjective(s.0, s.1, b, a); }
    if Format(t.0, t.1) == Format(a, b) { FormatInjective(t.0, t.1, a, b); }
    else { FormatInjective(t.0, t.1, b, a); }
  }

  /**
   * When no symbol contains a space, no two positions name the same unordered
   * pair: with `GeneratePairsComplete`, each such pair appears exactly once.
   */
  lemma GeneratePairsOnce(genes: seq<string>, order: seq<string>, a: string, b: string)
    requires IsDedup(genes, order)
    requires forall g :: g in genes ==> ' ' !in g
    requires a in genes && b in genes
    ensures forall p, q :: 0 <= p < q < |GeneratePairs(genes, order)| ==>
              !(GeneratePairs(genes, order)[p] in {Format(a, b), Format(b, a)} &&
                GeneratePairs(genes, order)[q] in {Format(a, b), Format(b, a)})
  {
    var pairs := Combinations2(order);
    var r := GeneratePairs(genes, order);
    forall p, q | 0 <= p < q < |r|
      ensures !(r[p] in {Format(a, b), Format(b, a)} && r[q] in {Format(a, b), Format(b, a)})
    {
      if r[p] in {Format(a, b), Format(b, a)} && r[q] in {Format(a, b), Format(b, a)} {
        CombinationsSound(order, p);
        CombinationsSound(order, q);
        assert pairs[p].0 in genes && pairs[q].0 in genes;
        assert r[p] == Format(pairs[p].0, pairs[p].1) && r[q] == Format(pairs[q].0, pairs[q].1);
        SameNameSamePair(pairs[p], pairs[q], a, b);
        CombinationsUnique(order, p, q);
      }
    }
  }
}
