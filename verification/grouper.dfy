/**
 * `Grouper::build`: questions are gathered into blocks. Each group definition, taken in
 * ascending `from`, claims the existing questions whose index lies in its range; every
 * question that no range covers becomes a block of its own; the blocks are then ordered
 * by their first question number.
 *
 * Questions are of any type `Q`, read through their `index` (`key`).
 */
module Grouper {
  import opened Chars

  /** A group definition; the fields the source reads with `??` may be missing. */
  datatype Def = Def(from: Option<int>, to: Option<int>, layout: Option<string>)

  datatype Layout = Horizontal | Vertical

  datatype Block<Q> =
    | Single(question: Q)
    | Group(questions: seq<Q>, layout: Layout, from: int, to: int, index: nat)

  /** `from` defaults to 0 (it is also the sort key of the definitions). */
  function FromOf(d: Def): int { d.from.GetOr(0) }

  /** `to` defaults to `from`. */
  function ToOf(d: Def): (t: int)
    ensures d.to.None? ==> t == FromOf(d)
  {
    d.to.GetOr(FromOf(d))
  }

  /** Vertical only when the definition says exactly "vertical". */
  function LayoutOf(d: Def): (l: Layout)
    ensures l == Vertical <==> d.layout == Some("vertical")
  {
    if d.layout == Some("vertical") then Vertical else Horizontal
  }

  predicate Covers(d: Def, i: int) { FromOf(d) <= i <= ToOf(d) }

  predicate Covered(defs: seq<Def>, i: int) {
    exists k :: 0 <= k < |defs| && Covers(defs[k], i)
  }

  /* ---------------- counting and stable sorting by an integer key ---------------- */

  function Count<T>(s: seq<T>, p: T -> bool): (n: nat)
    ensures n <= |s|
    decreases |s|
  {
    if s == [] then 0 else (if p(s[0]) then 1 else 0) + Count(s[1..], p)
  }

  lemma {:induction false} CountAppend<T>(a: seq<T>, b: seq<T>, p: T -> bool)
    ensures Count(a + b, p) == Count(a, p) + Count(b, p)
    decreases |a|
  {
    if a != [] {
      assert (a + b)[0] == a[0];
      assert (a + b)[1..] == a[1..] + b;
      CountAppend(a[1..], b, p);
    } else {
      assert a + b == b;
    }
  }

  /** Counting does not depend on the order of the elements. */
  lemma {:induction false} CountPermutation<T>(a: seq<T>, b: seq<T>, p: T -> bool)
    requires multiset(a) == multiset(b)
    ensures Count(a, p) == Count(b, p)
    decreases |a|
  {
    if a == [] {
      assert |b| == |multiset(b)| == 0;
    } else {
      assert a[0] in multiset(b);
      var i :| 0 <= i < |b| && b[i] == a[0];
      var rest := RemoveAt(b, i, p);
      assert a == [a[0]] + a[1..];
      assert multiset(a[1..]) == multiset(a) - multiset{a[0]};
      CountPermutation(a[1..], rest, p);
    }
  }

  /** `b` without its element `i`, counted. */
  lemma RemoveAt<T>(b: seq<T>, i: nat, p: T -> bool) returns (rest: seq<T>)
    requires i < |b|
    ensures rest == b[..i] + b[i + 1..]
    ensures multiset(rest) == multiset(b) - multiset{b[i]}
    ensures Count(b, p) == (if p(b[i]) then 1 else 0) + Count(rest, p)
  {
    rest := b[..i] + b[i + 1..];
    assert b == b[..i] + ([b[i]] + b[i + 1..]);
    assert multiset(b) == multiset(b[..i]) + multiset{b[i]} + multiset(b[i + 1..]);
    CountAppend(b[..i], [b[i]] + b[i + 1..], p);
    CountAppend([b[i]], b[i + 1..], p);
    CountAppend(b[..i], b[i + 1..], p);
    assert [b[i]][1..] == [];
  }

  predicate SortedBy<T>(s: seq<T>, key: T -> int) {
    forall i, j :: 0 <= i < j < |s| ==> key(s[i]) <= key(s[j])
  }

  /** Inserts `x` after every element whose key is not greater: equal keys keep their order. */
  function Insert<T>(x: T, s: seq<T>, key: T -> int): (r: seq<T>)
    requires SortedBy(s, key)
    ensures SortedBy(r, key)
    ensures multiset(r) == multiset(s) + multiset{x}
    decreases |s|
  {
    if s == [] then [x]
    else if key(s[|s| - 1]) <= key(x) then s + [x]
    else
      var init, last := s[..|s| - 1], s[|s| - 1];
      assert s == init + [last];
      var u := Insert(x, init, key);
      AllBelow(u, init, x, key, key(last));
      SortedSnoc(u, last, key);
      u + [last]
  }

  /** A bound on the keys of `v` and on `x` bounds the keys of any rearrangement of `v` plus `x`. */
  lemma AllBelow<T>(u: seq<T>, v: seq<T>, x: T, key: T -> int, b: int)
    requires multiset(u) == multiset(v) + multiset{x}
    requires key(x) <= b && forall i :: 0 <= i < |v| ==> key(v[i]) <= b
    ensures forall i :: 0 <= i < |u| ==> key(u[i]) <= b
  {
    forall i | 0 <= i < |u| ensures key(u[i]) <= b {
      assert u[i] in multiset(u);
      assert u[i] == x || u[i] in multiset(v);
    }
  }

  /** An element bounding the keys of a sorted sequence can be appended to it. */
  lemma SortedSnoc<T>(u: seq<T>, y: T, key: T -> int)
    requires SortedBy(u, key) && forall i :: 0 <= i < |u| ==> key(u[i]) <= key(y)
    ensures SortedBy(u + [y], key)
  {
  }

  /** PHP's `usort` (stable since PHP 8) on an integer key, as an insertion sort. */
  function SortBy<T>(s: seq<T>, key: T -> int): (r: seq<T>)
    ensures SortedBy(r, key)
    ensures multiset(r) == multiset(s)
    decreases |s|
  {
    if s == [] then []
    else
      assert s == s[..|s| - 1] + [s[|s| - 1]];
      Insert(s[|s| - 1], SortBy(s[..|s| - 1], key), key)
  }

  /** The elements of `s` whose key is `v`, in their order in `s`. */
  function KeyRun<T>(s: seq<T>, key: T -> int, v: int): seq<T>
    decreases |s|
  {
    if s == [] then []
    else KeyRun(s[..|s| - 1], key, v) + (if key(s[|s| - 1]) == v then [s[|s| - 1]] else [])
  }

  lemma KeyRunSnoc<T>(a: seq<T>, y: T, key: T -> int, v: int)
    ensures KeyRun(a + [y], key, v) == KeyRun(a, key, v) + (if key(y) == v then [y] else [])
  {
    assert (a + [y])[..|a|] == a;
  }

  /** Inserting before the last element of `s`: insert into the rest, then put that element back. */
  lemma InsertBeforeLast<T>(x: T, s: seq<T>, key: T -> int)
    requires SortedBy(s, key) && s != [] && key(x) < key(s[|s| - 1])
    ensures SortedBy(s[..|s| - 1], key)
    ensures Insert(x, s, key) == Insert(x, s[..|s| - 1], key) + [s[|s| - 1]]
  {
    var init := s[..|s| - 1];
    assert SortedBy(init, key) by {
      forall i, j | 0 <= i < j < |init|
        ensures key(init[i]) <= key(init[j])
      {
        assert init[i] == s[i] && init[j] == s[j];
      }
    }
  }

  /** Inserting `x` puts it after every element of its key: each run of equal keys keeps its order. */
  lemma {:induction false} InsertStable<T>(x: T, s: seq<T>, key: T -> int, v: int)
    requires SortedBy(s, key)
    ensures KeyRun(Insert(x, s, key), key, v) == KeyRun(s, key, v) + (if key(x) == v then [x] else [])
    decreases |s|
  {
    if s == [] {
      KeyRunSnoc([], x, key, v);
      assert [] + [x] == [x];
    } else if key(s[|s| - 1]) <= key(x) {
      KeyRunSnoc(s, x, key, v);
    } else {
      var init, last := s[..|s| - 1], s[|s| - 1];
      InsertBeforeLast(x, s, key);
      InsertStable(x, init, key, v);
      InsertStableStep(x, init, last, Insert(x, init, key), key, v);
      assert s == init + [last];
    }
  }

  /** The step of `InsertStable` past an element whose key is above that of `x`. */
  lemma InsertStableStep<T>(x: T, init: seq<T>, last: T, u: seq<T>, key: T -> int, v: int)
    requires key(x) < key(last)
    requires KeyRun(u, key, v) == KeyRun(init, key, v) + (if key(x) == v then [x] else [])
    ensures KeyRun(u + [last], key, v) == KeyRun(init + [last], key, v) + (if key(x) == v then [x] else [])
  {
    var a, b := KeyRun(init, key, v), KeyRun(u, key, v);
    if key(x) == v {
      assert KeyRun(init + [last], key, v) == a by {
        KeyRunSnoc(init, last, key, v);
        assert a + [] == a;
      }
      assert KeyRun(u + [last], key, v) == b by {
        KeyRunSnoc(u, last, key, v);
        assert b + [] == b;
      }
    } else {
      assert b == a by {
        assert a + [] == a;
      }
      var c := KeyRun(init + [last], key, v);
      assert KeyRun(u + [last], key, v) == c by {
        KeyRunSnoc(u, last, key, v);
        KeyRunSnoc(init, last, key, v);
      }
      assert c + [] == c;
    }
  }

  /**
   * `usort` is stable (since PHP 8): among the elements with the same key, the sorted
   * sequence keeps the order of the input.
   */
  lemma {:induction false} SortByStable<T>(s: seq<T>, key: T -> int, v: int)
    ensures KeyRun(SortBy(s, key), key, v) == KeyRun(s, key, v)
    decreases |s|
  {
    if s != [] {
      var init, last := s[..|s| - 1], s[|s| - 1];
      SortByStable(init, key, v);
      InsertStable(last, SortBy(init, key), key, v);
    }
  }

  /* ------------------------------- the index map ------------------------------- */

  /** `$indexMap`: each question under its index, a later question replacing an earlier one. */
  function IndexMap<Q>(qs: seq<Q>, key: Q -> int): (m: map<int, Q>)
    ensures forall i :: i in m ==> key(m[i]) == i
    ensures forall k :: 0 <= k < |qs| ==> key(qs[k]) in m
    ensures forall i :: i in m ==> exists k :: 0 <= k < |qs| && qs[k] == m[i]
    decreases |qs|
  {
    if qs == [] then map[]
    else
      var init := qs[..|qs| - 1];
      var m := IndexMap(init, key);
      assert forall i :: i in m ==> exists k :: 0 <= k < |qs| && qs[k] == m[i] by {
        forall i | i in m ensures exists k :: 0 <= k < |qs| && qs[k] == m[i] {
          var k :| 0 <= k < |init| && init[k] == m[i];
          assert qs[k] == init[k];
        }
      }
      m[key(qs[|qs| - 1]) := qs[|qs| - 1]]
  }

  /** With distinct indices, every question is the one stored under its index. */
  lemma IndexMapDistinct<Q>(qs: seq<Q>, key: Q -> int, k: nat)
    requires forall i, j :: 0 <= i < j < |qs| ==> key(qs[i]) != key(qs[j])
    requires k < |qs|
    ensures IndexMap(qs, key)[key(qs[k])] == qs[k]
  {
    var m := IndexMap(qs, key);
    var j :| 0 <= j < |qs| && qs[j] == m[key(qs[k])];
    assert key(qs[j]) == key(qs[k]);
  }

  /* --------------------------------- the groups --------------------------------- */

  /**
   * The existing questions with an index in `[i, hi]`, in ascending index order (the
   * inner `for` loop of `build`).
   */
  function Members<Q>(m: map<int, Q>, key: Q -> int, i: int, hi: int): (r: seq<Q>)
    requires forall j :: j in m ==> key(m[j]) == j
    ensures forall k :: 0 <= k < |r| ==> i <= key(r[k]) <= hi && key(r[k]) in m && r[k] == m[key(r[k])]
    ensures forall k, l :: 0 <= k < l < |r| ==> key(r[k]) < key(r[l])
    decreases hi - i + 1
  {
    if i > hi then []
    else
      var rest := Members(m, key, i + 1, hi);
      if i in m then [m[i]] + rest else rest
  }

  /** Every existing question of the range is a member. */
  lemma {:induction false} MembersComplete<Q>(m: map<int, Q>, key: Q -> int, i: int, hi: int, j: int)
    requires forall x :: x in m ==> key(m[x]) == x
    requires i <= j <= hi && j in m
    ensures m[j] in Members(m, key, i, hi)
    decreases hi - i + 1
  {
    if i < j {
      MembersComplete(m, key, i + 1, hi, j);
    }
  }

  /** Members of a range with no existing question: none. */
  lemma MembersEmpty<Q>(m: map<int, Q>, key: Q -> int, lo: int, hi: int)
    requires forall j :: j in m ==> key(m[j]) == j
    ensures Members(m, key, lo, hi) == [] <==> forall j :: lo <= j <= hi ==> j !in m
  {
    var r := Members(m, key, lo, hi);
    forall j | lo <= j <= hi && j in m
      ensures m[j] in r
    {
      MembersComplete(m, key, lo, hi, j);
    }
    if r != [] {
      assert lo <= key(r[0]) <= hi && key(r[0]) in m;
    }
  }

  /**
   * The group blocks of the definitions, in order: a definition whose range holds no
   * existing question gives no block, and the blocks emitted are numbered 0, 1, 2, ...
   */
  function Groups<Q>(defs: seq<Def>, m: map<int, Q>, key: Q -> int): (r: seq<Block<Q>>)
    requires forall j :: j in m ==> key(m[j]) == j
    ensures |r| <= |defs|
    ensures forall k :: 0 <= k < |r| ==> r[k].Group? && r[k].index == k && r[k].questions != []
    decreases |defs|
  {
    if defs == [] then []
    else
      var prev := Groups(defs[..|defs| - 1], m, key);
      var d := defs[|defs| - 1];
      var g := Members(m, key, FromOf(d), ToOf(d));
      if g == [] then prev
      else prev + [Group(g, LayoutOf(d), FromOf(d), ToOf(d), |prev|)]
  }

  /** `$used`: the existing indices some definition covers. */
  function Used<Q>(defs: seq<Def>, m: map<int, Q>): set<int> {
    set i | i in m.Keys && Covered(defs, i)
  }

  /** The questions left to themselves, in their original order. */
  function Singles<Q>(qs: seq<Q>, key: Q -> int, used: set<int>): (r: seq<Block<Q>>)
    ensures forall k :: 0 <= k < |r| ==> r[k].Single? && key(r[k].question) !in used
    decreases |qs|
  {
    if qs == [] then []
    else
      var prev := Singles(qs[..|qs| - 1], key, used);
      if key(qs[|qs| - 1]) in used then prev else prev + [Single(qs[|qs| - 1])]
  }

  /** The sort key of a block: its `from`, or the index of its single question. */
  function BlockKey<Q>(key: Q -> int): Block<Q> -> int {
    (b: Block<Q>) => if b.Group? then b.from else key(b.question)
  }

  /** The blocks before the final sort. */
  function Unsorted<Q>(qs: seq<Q>, key: Q -> int, defs: seq<Def>): seq<Block<Q>> {
    var m := IndexMap(qs, key);
    var sorted := SortBy(defs, FromOf);
    Groups(sorted, m, key) + Singles(qs, key, Used(sorted, m))
  }

  /** `build`: the group and single blocks, ordered by their first question number. */
  function Build<Q>(qs: seq<Q>, key: Q -> int, defs: seq<Def>): (r: seq<Block<Q>>)
    ensures SortedBy(r, BlockKey(key))
    ensures multiset(r) == multiset(Unsorted(qs, key, defs))
  {
    SortBy(Unsorted(qs, key, defs), BlockKey(key))
  }

  /** Every question as a block of its own, in list order. */
  function Singletons<Q>(qs: seq<Q>): (r: seq<Block<Q>>)
    ensures |r| == |qs| && forall i :: 0 <= i < |qs| ==> r[i] == Single(qs[i])
  {
    seq(|qs|, i requires 0 <= i < |qs| => Single(qs[i]))
  }

  lemma {:induction false} SinglesAll<Q>(qs: seq<Q>, key: Q -> int)
    ensures Singles(qs, key, {}) == Singletons(qs)
    decreases |qs|
  {
    if qs != [] {
      SinglesAll(qs[..|qs| - 1], key);
    }
  }

  /**
   * Without group definitions every question is a block of its own: the blocks are the
   * questions, each once, ordered by question number.
   */
  lemma NoDefsAllSingles<Q>(qs: seq<Q>, key: Q -> int)
    ensures multiset(Build(qs, key, [])) == multiset(Singletons(qs))
    ensures SortedBy(Build(qs, key, []), BlockKey(key))
  {
    var m := IndexMap(qs, key);
    var none: seq<Def> := [];
    assert SortBy(none, FromOf) == [];
    assert Groups(none, m, key) == [];
    assert Used(none, m) == {};
    SinglesAll(qs, key);
  }

  /* ------------------------------ the imperative build ------------------------------ */

  method BuildBlocks<Q>(qs: seq<Q>, key: Q -> int, defs: seq<Def>) returns (blocks: seq<Block<Q>>)
    ensures blocks == Build(qs, key, defs)
  {
    var m := IndexMapOf(qs, key);
    var sorted := SortBy(defs, FromOf);
    var groups, used := GroupAll(sorted, m, key);
    var singles := SinglesOf(qs, key, used);
    blocks := SortBy(groups + singles, BlockKey(key));
  }

  /** The first loop of `build`: the index map. */
  method IndexMapOf<Q>(qs: seq<Q>, key: Q -> int) returns (m: map<int, Q>)
    ensures m == IndexMap(qs, key)
  {
    m := map[];
    for k := 0 to |qs|
      invariant m == IndexMap(qs[..k], key)
    {
      assert qs[..k + 1][..k] == qs[..k];
      m := m[key(qs[k]) := qs[k]];
    }
    assert qs[..|qs|] == qs;
  }

  /** The loop over the sorted definitions, marking the indices they claim as used. */
  method GroupAll<Q>(sorted: seq<Def>, m: map<int, Q>, key: Q -> int)
    returns (groups: seq<Block<Q>>, used: set<int>)
    requires forall i :: i in m ==> key(m[i]) == i
    ensures groups == Groups(sorted, m, key) && used == Used(sorted, m)
  {
    used := {};
    groups := [];
    for j := 0 to |sorted|
      invariant groups == Groups(sorted[..j], m, key)
      invariant used == Used(sorted[..j], m)
    {
      var d := sorted[j];
      var groupQs, newly := GroupRange(m, key, FromOf(d), ToOf(d));
      GroupsStep(sorted, j, m, key);
      UsedStep(sorted, j, m);
      used := used + newly;
      if groupQs != [] {
        groups := groups + [Group(groupQs, LayoutOf(d), FromOf(d), ToOf(d), |groups|)];
      }
    }
    assert sorted[..|sorted|] == sorted;
  }

  /** The inner `for ($i = $from; $i <= $to; $i++)` loop of one definition. */
  method GroupRange<Q>(m: map<int, Q>, key: Q -> int, lo: int, hi: int)
    returns (groupQs: seq<Q>, newly: set<int>)
    requires forall i :: i in m ==> key(m[i]) == i
    ensures groupQs == Members(m, key, lo, hi)
    ensures newly == set x | x in m.Keys && lo <= x <= hi
  {
    groupQs := [];
    newly := {};
    var i := lo;
    while i <= hi
      invariant lo <= i && (i <= hi + 1 || i == lo)
      invariant groupQs + Members(m, key, i, hi) == Members(m, key, lo, hi)
      invariant newly == set x | x in m.Keys && lo <= x < i
      decreases hi - i + 1
    {
      if i in m {
        groupQs := groupQs + [m[i]];
        newly := newly + {i};
      }
      i := i + 1;
    }
  }

  /** The loop collecting the questions no definition claimed. */
  method SinglesOf<Q>(qs: seq<Q>, key: Q -> int, used: set<int>) returns (singles: seq<Block<Q>>)
    ensures singles == Singles(qs, key, used)
  {
    singles := [];
    for k := 0 to |qs|
      invariant singles == Singles(qs[..k], key, used)
    {
      assert qs[..k + 1][..k] == qs[..k];
      if key(qs[k]) !in used {
        singles := singles + [Single(qs[k])];
      }
    }
    assert qs[..|qs|] == qs;
  }

  lemma GroupsStep<Q>(defs: seq<Def>, j: nat, m: map<int, Q>, key: Q -> int)
    requires j < |defs|
    requires forall i :: i in m ==> key(m[i]) == i
    ensures var g := Members(m, key, FromOf(defs[j]), ToOf(defs[j]));
      var prev := Groups(defs[..j], m, key);
      Groups(defs[..j + 1], m, key)
        == if g == [] then prev else prev + [Group(g, LayoutOf(defs[j]), FromOf(defs[j]), ToOf(defs[j]), |prev|)]
  {
    assert defs[..j + 1][..j] == defs[..j];
  }

  lemma UsedStep<Q>(defs: seq<Def>, j: nat, m: map<int, Q>)
    requires j < |defs|
    ensures Used(defs[..j + 1], m) == Used(defs[..j], m) + (set x | x in m.Keys && Covers(defs[j], x))
  {
    forall x | x in m.Keys
      ensures Covered(defs[..j + 1], x) <==> Covered(defs[..j], x) || Covers(defs[j], x)
    {
      if Covered(defs[..j + 1], x) {
        var k :| 0 <= k < j + 1 && Covers(defs[..j + 1][k], x);
        if k < j {
          assert defs[..j][k] == defs[..j + 1][k];
        }
      }
      if Covered(defs[..j], x) {
        var k :| 0 <= k < j && Covers(defs[..j][k], x);
        assert defs[..j + 1][k] == defs[..j][k];
      }
      if Covers(defs[j], x) {
        assert defs[..j + 1][j] == defs[j];
      }
    }
  }

  /* ---------------------------------- properties ---------------------------------- */

  predicate HoldsQ<Q(==)>(b: Block<Q>, q: Q) {
    if b.Single? then b.question == q else q in b.questions
  }

  /**
   * A question of the list stands alone exactly when no definition covers its index
   * (whatever the other blocks are).
   */
  lemma SingleIffUncovered<Q>(qs: seq<Q>, key: Q -> int, defs: seq<Def>, q: Q)
    requires q in qs
    ensures Single(q) in Build(qs, key, defs) <==> !Covered(defs, key(q))
  {
    var m := IndexMap(qs, key);
    var sorted := SortBy(defs, FromOf);
    var singles := Singles(qs, key, Used(sorted, m));
    var groups := Groups(sorted, m, key);
    var r := Build(qs, key, defs);
    assert Single(q) in r <==> Single(q) in groups + singles by {
      assert multiset(r) == multiset(groups + singles);
      assert Single(q) in r <==> Single(q) in multiset(r);
      assert Single(q) in groups + singles <==> Single(q) in multiset(groups + singles);
    }
    CoveredPermutation(defs, sorted, key(q));
    SingleInBlocks(qs, key, sorted, q);
  }

  /** Among the unsorted blocks, a question stands alone exactly when the sorted definitions leave it uncovered. */
  lemma SingleInBlocks<Q>(qs: seq<Q>, key: Q -> int, sorted: seq<Def>, q: Q)
    requires q in qs
    ensures var m := IndexMap(qs, key);
      Single(q) in Groups(sorted, m, key) + Singles(qs, key, Used(sorted, m)) <==> !Covered(sorted, key(q))
  {
    var m := IndexMap(qs, key);
    var singles := Singles(qs, key, Used(sorted, m));
    var groups := Groups(sorted, m, key);
    var k :| 0 <= k < |qs| && qs[k] == q;
    assert key(q) in m;
    if Single(q) in groups + singles {
      assert Single(q) !in groups;
      var i :| 0 <= i < |singles| && singles[i] == Single(q);
      assert key(q) !in Used(sorted, m);
    }
    if !Covered(sorted, key(q)) {
      SinglesHold(qs, key, Used(sorted, m), k);
    }
  }

  lemma {:induction false} SinglesHold<Q>(qs: seq<Q>, key: Q -> int, used: set<int>, k: nat)
    requires k < |qs| && key(qs[k]) !in used
    ensures Single(qs[k]) in Singles(qs, key, used)
    decreases |qs|
  {
    var init := qs[..|qs| - 1];
    if k < |qs| - 1 {
      assert init[k] == qs[k];
      SinglesHold(init, key, used, k);
    }
  }

  lemma CoveredPermutation(a: seq<Def>, b: seq<Def>, i: int)
    requires multiset(a) == multiset(b)
    ensures Covered(a, i) <==> Covered(b, i)
  {
    if Covered(a, i) {
      var k :| 0 <= k < |a| && Covers(a[k], i);
      assert a[k] in multiset(b);
      var l :| 0 <= l < |b| && b[l] == a[k];
    }
    if Covered(b, i) {
      var k :| 0 <= k < |b| && Covers(b[k], i);
      assert b[k] in multiset(a);
      var l :| 0 <= l < |a| && a[l] == b[k];
    }
  }

  /**
   * With distinct question indices, a question is held by as many blocks as there are
   * definitions covering its index, or by its own single block when none does. Overlap is
   * not prevented: two definitions covering the same index put that question in two groups.
   */
  lemma HoldCount<Q>(qs: seq<Q>, key: Q -> int, defs: seq<Def>, q: Q)
    requires forall i, j :: 0 <= i < j < |qs| ==> key(qs[i]) != key(qs[j])
    requires q in qs
    ensures Count(Build(qs, key, defs), b => HoldsQ(b, q))
      == if Covered(defs, key(q)) then Count(defs, (d: Def) => Covers(d, key(q))) else 1
  {
    var m := IndexMap(qs, key);
    var sorted := SortBy(defs, FromOf);
    var used := Used(sorted, m);
    var groups := Groups(sorted, m, key);
    var singles := Singles(qs, key, used);
    var p := (b: Block<Q>) => HoldsQ(b, q);
    var k :| 0 <= k < |qs| && qs[k] == q;
    IndexMapDistinct(qs, key, k);
    CountPermutation(Build(qs, key, defs), groups + singles, p);
    CountAppend(groups, singles, p);
    var covers := (d: Def) => Covers(d, key(q));
    GroupsCount(sorted, m, key, q);
    CountPermutation(sorted, defs, covers);
    CoveredPermutation(defs, sorted, key(q));
    CoveredCount(sorted, key(q));
    SinglesCount(qs, key, used, q);
    DistinctCount(qs, key, q);
  }

  /**
   * With distinct question indices and pairwise disjoint ranges, every question of the
   * list is held by exactly one block.
   */
  lemma ExactlyOnce<Q>(qs: seq<Q>, key: Q -> int, defs: seq<Def>, q: Q)
    requires forall i, j :: 0 <= i < j < |qs| ==> key(qs[i]) != key(qs[j])
    requires forall i, j :: 0 <= i < j < |defs| ==> !(exists x :: Covers(defs[i], x) && Covers(defs[j], x))
    requires q in qs
    ensures Count(Build(qs, key, defs), b => HoldsQ(b, q)) == 1
  {
    HoldCount(qs, key, defs, q);
    DisjointCount(defs, key(q));
    CoveredCount(defs, key(q));
  }

  /** The groups holding `q` are as many as the definitions covering its index. */
  lemma {:induction false} GroupsCount<Q>(defs: seq<Def>, m: map<int, Q>, key: Q -> int, q: Q)
    requires forall j :: j in m ==> key(m[j]) == j
    requires key(q) in m && m[key(q)] == q
    ensures Count(Groups(defs, m, key), b => HoldsQ(b, q)) == Count(defs, (d: Def) => Covers(d, key(q)))
    decreases |defs|
  {
    var p := (b: Block<Q>) => HoldsQ(b, q);
    var covers := (d: Def) => Covers(d, key(q));
    if defs != [] {
      var init := defs[..|defs| - 1];
      var d := defs[|defs| - 1];
      GroupsCount(init, m, key, q);
      assert defs == init + [d];
      CountAppend(init, [d], covers);
      var g := Members(m, key, FromOf(d), ToOf(d));
      var prev := Groups(init, m, key);
      if Covers(d, key(q)) {
        MembersComplete(m, key, FromOf(d), ToOf(d), key(q));
        CountAppend(prev, [Group(g, LayoutOf(d), FromOf(d), ToOf(d), |prev|)], p);
      } else {
        assert q !in g;
        if g != [] {
          CountAppend(prev, [Group(g, LayoutOf(d), FromOf(d), ToOf(d), |prev|)], p);
        }
      }
    }
  }

  /** Pairwise disjoint ranges: at most one covers a given index. */
  lemma {:induction false} DisjointCount(defs: seq<Def>, x: int)
    requires forall i, j :: 0 <= i < j < |defs| ==> !(exists y :: Covers(defs[i], y) && Covers(defs[j], y))
    ensures Count(defs, (d: Def) => Covers(d, x)) <= 1
    decreases |defs|
  {
    var covers := (d: Def) => Covers(d, x);
    if defs != [] {
      DisjointCount(defs[1..], x);
      if Covers(defs[0], x) {
        NoneCover(defs[1..], x, defs[0]);
      }
    }
  }

  lemma {:induction false} NoneCover(defs: seq<Def>, x: int, d0: Def)
    requires Covers(d0, x)
    requires forall j :: 0 <= j < |defs| ==> !(exists y :: Covers(d0, y) && Covers(defs[j], y))
    ensures Count(defs, (d: Def) => Covers(d, x)) == 0
    decreases |defs|
  {
    if defs != [] {
      NoneCover(defs[1..], x, d0);
    }
  }

  /** Some definition covers the index exactly when the count of covering ones is positive. */
  lemma {:induction false} CoveredCount(defs: seq<Def>, x: int)
    ensures Covered(defs, x) <==> Count(defs, (d: Def) => Covers(d, x)) > 0
    decreases |defs|
  {
    if defs != [] {
      CoveredCount(defs[1..], x);
      if Covered(defs[1..], x) {
        var k :| 0 <= k < |defs[1..]| && Covers(defs[1..][k], x);
        assert Covers(defs[k + 1], x);
      }
      if Covered(defs, x) && !Covers(defs[0], x) {
        var k :| 0 <= k < |defs| && Covers(defs[k], x);
        assert defs[1..][k - 1] == defs[k];
      }
    }
  }

  /** The single blocks holding `q`: one per occurrence of `q` whose index is unused. */
  lemma {:induction false} SinglesCount<Q>(qs: seq<Q>, key: Q -> int, used: set<int>, q: Q)
    ensures Count(Singles(qs, key, used), b => HoldsQ(b, q))
      == if key(q) in used then 0 else Count(qs, x => x == q)
    decreases |qs|
  {
    var p := (b: Block<Q>) => HoldsQ(b, q);
    var eq := (x: Q) => x == q;
    if qs != [] {
      var init := qs[..|qs| - 1];
      var last := qs[|qs| - 1];
      SinglesCount(init, key, used, q);
      assert qs == init + [last];
      CountAppend(init, [last], eq);
      if key(last) !in used {
        CountAppend(Singles(init, key, used), [Single(last)], p);
      }
    }
  }

  /** With distinct indices a question occurs once in the list. */
  lemma {:induction false} DistinctCount<Q>(qs: seq<Q>, key: Q -> int, q: Q)
    requires forall i, j :: 0 <= i < j < |qs| ==> key(qs[i]) != key(qs[j])
    requires q in qs
    ensures Count(qs, x => x == q) == 1
    decreases |qs|
  {
    var eq := (x: Q) => x == q;
    if qs[0] == q {
      assert q !in qs[1..];
      AbsentCount(qs[1..], q);
    } else {
      DistinctCount(qs[1..], key, q);
    }
  }

  lemma {:induction false} AbsentCount<Q>(qs: seq<Q>, q: Q)
    requires q !in qs
    ensures Count(qs, x => x == q) == 0
    decreases |qs|
  {
    if qs != [] {
      assert q !in qs[1..];
      AbsentCount(qs[1..], q);
    }
  }
}
