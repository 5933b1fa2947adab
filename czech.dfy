/**
  The Czech, Havas and Majewski construction of an ordered minimal perfect
  hash function for a list of words (perfection/czech.py): every word is an
  edge between two mini-hash values; once the edges form a forest, a
  depth-first walk assigns each vertex a value g so that the two values of a
  word's edge add up to the word's index.

  The random tables are the one source of nondeterminism. random.shuffle is
  modelled as the Fisher-Yates walk it performs, with the values its
  random-number source returned given as input.
*/
module Czech {
  import opened Wrappers
  import opened Graphs
  import opened Forest
  import opened Builtins

  type Word = seq<char>

  // ---------------------------------------------------------------------------
  // ordered_deduplicate

  predicate Distinct<T(==)>(s: seq<T>)
  {
    forall i, j :: 0 <= i < j < |s| ==> s[i] != s[j]
  }

  /** The filter of ordered_deduplicate, with the set of values already seen. */
  function DedupFrom<T(==)>(s: seq<T>, seen: set<T>): seq<T>
  {
    if s == [] then []
    else if s[0] in seen then DedupFrom(s[1..], seen)
    else [s[0]] + DedupFrom(s[1..], seen + {s[0]})
  }

  /** The filter keeps each value not yet seen, once. */
  lemma {:induction false} DedupFromContents<T>(s: seq<T>, seen: set<T>)
    ensures var r := DedupFrom(s, seen);
            && (forall i :: 0 <= i < |r| ==> r[i] in s && r[i] !in seen)
            && (forall k :: 0 <= k < |s| && s[k] !in seen ==> s[k] in r)
            && Distinct(r)
            && |r| <= |s|
  {
    if s != [] {
      var t := s[1..];
      if s[0] in seen {
        DedupFromContents(t, seen);
        var r := DedupFrom(s, seen);
        forall k | 0 <= k < |s| && s[k] !in seen ensures s[k] in r {
          assert s[k] == t[k - 1];
        }
      } else {
        var r' := DedupFrom(t, seen + {s[0]});
        DedupFromContents(t, seen + {s[0]});
        var r := [s[0]] + r';
        forall k | 0 <= k < |s| && s[k] !in seen ensures s[k] in r {
          if k > 0 && s[k] != s[0] {
            assert s[k] == t[k - 1];
          }
        }
        forall i, j | 0 <= i < j < |r| ensures r[i] != r[j] {
          assert r[j] == r'[j - 1];
          if i > 0 {
            assert r[i] == r'[i - 1];
          }
        }
      }
    }
  }

  /** ordered_deduplicate: the values of s without repetition. */
  function OrderedDeduplicate<T(==)>(s: seq<T>): (r: seq<T>)
    ensures forall i :: 0 <= i < |r| ==> r[i] in s
    ensures forall k :: 0 <= k < |s| ==> s[k] in r
    ensures Distinct(r)
    ensures |r| <= |s|
  {
    DedupFromContents(s, {});
    DedupFrom(s, {})
  }

  /** The position of the first occurrence of x in s. */
  function FirstIndex<T(==)>(s: seq<T>, x: T): (k: nat)
    requires x in s
    ensures k < |s| && s[k] == x && x !in s[..k]
  {
    if s[0] == x then 0 else 1 + FirstIndex(s[1..], x)
  }

  /** Past a different head, the first occurrence is one position further on. */
  lemma FirstIndexPastHead<T>(s: seq<T>, x: T)
    requires |s| > 0 && x in s[1..] && x != s[0]
    ensures FirstIndex(s, x) == 1 + FirstIndex(s[1..], x)
  {
  }

  /** The values kept appear in the order of their first occurrences in the input. */
  lemma {:induction false} DedupFromKeepsFirstOccurrenceOrder<T>(s: seq<T>, seen: set<T>, i: nat, j: nat)
    requires i < j < |DedupFrom(s, seen)|
    ensures DedupFrom(s, seen)[i] in s && DedupFrom(s, seen)[j] in s
    ensures FirstIndex(s, DedupFrom(s, seen)[i]) < FirstIndex(s, DedupFrom(s, seen)[j])
    decreases |s|
  {
    if s[0] in seen {
      DedupFromKeepsFirstOccurrenceOrder(s[1..], seen, i, j);
      OrderPastSeenHead(s, seen, i, j);
    } else if i > 0 {
      DedupFromKeepsFirstOccurrenceOrder(s[1..], seen + {s[0]}, i - 1, j - 1);
      OrderPastKeptHead(s, seen, i, j);
    } else {
      OrderFromKeptHead(s, seen, j);
    }
  }

  /** A seen head is dropped: the order of the tail's values carries over. */
  lemma OrderPastSeenHead<T>(s: seq<T>, seen: set<T>, i: nat, j: nat)
    requires s != [] && s[0] in seen && i < j < |DedupFrom(s, seen)|
    requires var r := DedupFrom(s[1..], seen);
      i < j < |r| && r[i] in s[1..] && r[j] in s[1..] && FirstIndex(s[1..], r[i]) < FirstIndex(s[1..], r[j])
    ensures DedupFrom(s, seen)[i] in s && DedupFrom(s, seen)[j] in s
    ensures FirstIndex(s, DedupFrom(s, seen)[i]) < FirstIndex(s, DedupFrom(s, seen)[j])
  {
    var t := s[1..];
    var r := DedupFrom(s, seen);
    assert r == DedupFrom(t, seen);
    DedupFromContents(t, seen);
    assert r[i] !in seen && r[j] !in seen;
    FirstIndexPastHead(s, r[i]);
    FirstIndexPastHead(s, r[j]);
  }

  /** A kept head is prepended: the order of the tail's values shifts by one. */
  lemma OrderPastKeptHead<T>(s: seq<T>, seen: set<T>, i: nat, j: nat)
    requires s != [] && s[0] !in seen && 0 < i < j < |DedupFrom(s, seen)|
    requires var r := DedupFrom(s[1..], seen + {s[0]});
      i - 1 < j - 1 < |r| && r[i - 1] in s[1..] && r[j - 1] in s[1..]
      && FirstIndex(s[1..], r[i - 1]) < FirstIndex(s[1..], r[j - 1])
    ensures DedupFrom(s, seen)[i] in s && DedupFrom(s, seen)[j] in s
    ensures FirstIndex(s, DedupFrom(s, seen)[i]) < FirstIndex(s, DedupFrom(s, seen)[j])
  {
    var t := s[1..];
    var seen' := seen + {s[0]};
    var r' := DedupFrom(t, seen');
    var r := DedupFrom(s, seen);
    DedupFromContents(t, seen');
    assert r == [s[0]] + r';
    assert r[i] == r'[i - 1] && r'[i - 1] !in seen';
    assert r[j] == r'[j - 1] && r'[j - 1] !in seen';
    FirstIndexPastHead(s, r[i]);
    FirstIndexPastHead(s, r[j]);
  }

  /** The kept head comes first of all. */
  lemma OrderFromKeptHead<T>(s: seq<T>, seen: set<T>, j: nat)
    requires s != [] && s[0] !in seen && 0 < j < |DedupFrom(s, seen)|
    ensures DedupFrom(s, seen)[0] in s && DedupFrom(s, seen)[j] in s
    ensures FirstIndex(s, DedupFrom(s, seen)[0]) < FirstIndex(s, DedupFrom(s, seen)[j])
  {
    var t := s[1..];
    var seen' := seen + {s[0]};
    var r' := DedupFrom(t, seen');
    var r := DedupFrom(s, seen);
    DedupFromContents(t, seen');
    assert r == [s[0]] + r';
    assert r[j] == r'[j - 1] && r'[j - 1] in t && r'[j - 1] !in seen';
    FirstIndexPastHead(s, r[j]);
    assert FirstIndex(s, r[0]) == 0;
  }

  lemma OrderedDeduplicateKeepsFirstOccurrenceOrder<T>(s: seq<T>, i: nat, j: nat)
    requires i < j < |OrderedDeduplicate(s)|
    ensures OrderedDeduplicate(s)[i] in s && OrderedDeduplicate(s)[j] in s
    ensures FirstIndex(s, OrderedDeduplicate(s)[i]) < FirstIndex(s, OrderedDeduplicate(s)[j])
  {
    DedupFromKeepsFirstOccurrenceOrder(s, {}, i, j);
  }

  /** One step of the filter: the head is kept exactly when it has not been seen. */
  lemma DedupFromStep<T>(a: T, t: seq<T>, seen: set<T>)
    ensures DedupFrom([a] + t, seen) == if a in seen then DedupFrom(t, seen) else [a] + DedupFrom(t, seen + {a})
  {
    assert ([a] + t)[1..] == t;
  }

  /** The last four values of the doctest once 1, 2 and 3 have been seen. */
  lemma OrderedDeduplicateExampleTail(seen: set<int>)
    requires 1 in seen && 2 in seen && 32 !in seen
    ensures DedupFrom([1, 32, 1, 2], seen) == [32]
  {
    var seen' := seen + {32};
    DedupFromStep(2, [], seen');
    assert DedupFrom([2], seen') == [];
    DedupFromStep(1, [2], seen');
    assert DedupFrom([1, 2], seen') == [];
    DedupFromStep(32, [1, 2], seen);
    assert DedupFrom([32, 1, 2], seen) == [32];
    DedupFromStep(1, [32, 1, 2], seen);
  }

  /** The doctest of ordered_deduplicate. */
  lemma OrderedDeduplicateExample()
    ensures OrderedDeduplicate([1, 2, 3, 1, 32, 1, 2]) == [1, 2, 3, 32]
  {
    var seen1 := {} + {1};
    var seen2 := seen1 + {2};
    var seen3 := seen2 + {3};
    OrderedDeduplicateExampleTail(seen3);
    DedupFromStep(3, [1, 32, 1, 2], seen2);
    assert DedupFrom([3, 1, 32, 1, 2], seen2) == [3, 32];
    DedupFromStep(2, [3, 1, 32, 1, 2], seen1);
    assert DedupFrom([2, 3, 1, 32, 1, 2], seen1) == [2, 3, 32];
    DedupFromStep(1, [2, 3, 1, 32, 1, 2], {});
    assert [1] + [2, 3, 1, 32, 1, 2] == [1, 2, 3, 1, 32, 1, 2];
    assert [1] + [2, 3, 32] == [1, 2, 3, 32];
  }

  /** A list without repetition is its own deduplication. */
  lemma {:induction false} DedupFromDistinct<T>(s: seq<T>, seen: set<T>)
    requires Distinct(s)
    requires forall i :: 0 <= i < |s| ==> s[i] !in seen
    ensures DedupFrom(s, seen) == s
  {
    if s != [] {
      var t := s[1..];
      assert forall i :: 0 <= i < |t| ==> t[i] == s[i + 1] && t[i] != s[0];
      DedupFromDistinct(t, seen + {s[0]});
      assert s == [s[0]] + t;
    }
  }

  lemma OrderedDeduplicateOfDistinct<T>(s: seq<T>)
    requires Distinct(s)
    ensures OrderedDeduplicate(s) == s
  {
    DedupFromDistinct(s, {});
  }

  // ---------------------------------------------------------------------------
  // The mini-hash of generate_func and PickableHash.__mini_hashing

  /** ord(c): the code point of a character. */
  function Ord(c: char): nat
  {
    c as nat
  }

  /** sum(x * ord(c) for x, c in zip(table, word)); zip stops at the shorter sequence. */
  function WeightedSum(table: seq<int>, word: Word): int
  {
    if table == [] || word == [] then 0
    else table[0] * Ord(word[0]) + WeightedSum(table[1..], word[1..])
  }

  /** Positions past the shorter of table and word do not count. */
  lemma {:induction false} WeightedSumTruncates(table: seq<int>, word: Word, k: nat)
    requires k == if |table| <= |word| then |table| else |word|
    ensures WeightedSum(table, word) == WeightedSum(table[..k], word[..k])
  {
    if k > 0 {
      assert table[..k][1..] == table[1..][..k - 1];
      assert word[..k][1..] == word[1..][..k - 1];
      WeightedSumTruncates(table[1..], word[1..], k - 1);
    }
  }

  /** A table of non-negative weights gives a non-negative sum. */
  lemma {:induction false} WeightedSumNonNegative(table: seq<int>, word: Word)
    requires forall i :: 0 <= i < |table| ==> table[i] >= 0
    ensures WeightedSum(table, word) >= 0
  {
    if table != [] && word != [] {
      WeightedSumNonNegative(table[1..], word);
      assert forall i :: 0 <= i < |table[1..]| ==> table[1..][i] == table[i + 1];
      WeightedSumNonNegative(table[1..], word[1..]);
    }
  }

  /**
    func(word) = sum(...) % n. Python's % and Dafny's agree for a positive
    modulus: the result is the representative of the sum in [0, n).
  */
  function MiniHash(table: seq<int>, word: Word, n: nat): (r: int)
    requires n > 0
    ensures 0 <= r < n
  {
    WeightedSum(table, word) % n
  }

  // ---------------------------------------------------------------------------
  // generate_random_table: random.shuffle(list(range(n)))

  /**
    The values random.shuffle draws for a list of n items: at step k it swaps
    position n-1-k with a position it draws from [0, n-1-k].
  */
  predicate ValidDraws(n: nat, draws: seq<nat>)
  {
    && |draws| == (if n == 0 then 0 else n - 1)
    && forall k :: 0 <= k < |draws| ==> draws[k] <= n - 1 - k
  }

  function Swap(s: seq<int>, i: nat, j: nat): seq<int>
    requires i < |s| && j < |s|
  {
    s[i := s[j]][j := s[i]]
  }

  /** The list after the first k steps of the shuffle. */
  function ShuffleSteps(s: seq<int>, draws: seq<nat>, k: nat): (r: seq<int>)
    requires ValidDraws(|s|, draws) && k <= |draws|
    ensures |r| == |s|
  {
    if k == 0 then s else Swap(ShuffleSteps(s, draws, k - 1), |s| - k, draws[k - 1])
  }

  function Shuffled(n: nat, draws: seq<nat>): (r: seq<int>)
    requires ValidDraws(n, draws)
  {
    ShuffleSteps(Range(n), draws, |draws|)
  }

  /** Swapping two positions only reorders. */
  lemma SwapPermutes(p: seq<int>, i: nat, j: nat)
    requires i < |p| && j < |p|
    ensures multiset(Swap(p, i, j)) == multiset(p)
  {
    var q := p[i := p[j]];
    assert multiset(q) == multiset(p) - multiset{p[i]} + multiset{p[j]};
    assert multiset(q[j := p[i]]) == multiset(q) - multiset{q[j]} + multiset{p[i]};
  }

  /** One step of the shuffle only reorders. */
  lemma ShuffleStepPermutes(s: seq<int>, draws: seq<nat>, k: nat)
    requires ValidDraws(|s|, draws) && 0 < k <= |draws|
    ensures multiset(ShuffleSteps(s, draws, k)) == multiset(ShuffleSteps(s, draws, k - 1))
  {
    SwapPermutes(ShuffleSteps(s, draws, k - 1), |s| - k, draws[k - 1]);
  }

  /** Every step swaps two positions, so the shuffle only reorders. */
  lemma {:induction false} ShuffleStepsPermutes(s: seq<int>, draws: seq<nat>, k: nat)
    requires ValidDraws(|s|, draws) && k <= |draws|
    ensures multiset(ShuffleSteps(s, draws, k)) == multiset(s)
  {
    if k > 0 {
      ghost var before := multiset(ShuffleSteps(s, draws, k - 1));
      ShuffleStepsPermutes(s, draws, k - 1);
      assert before == multiset(s);
      ShuffleStepPermutes(s, draws, k);
      assert multiset(ShuffleSteps(s, draws, k)) == before;
    }
  }

  /** generate_random_table returns a permutation of range(n): every value of [0, n) exactly once. */
  lemma ShuffledIsPermutationOfRange(n: nat, draws: seq<nat>)
    requires ValidDraws(n, draws)
    ensures |Shuffled(n, draws)| == n
    ensures multiset(Shuffled(n, draws)) == multiset(Range(n))
    ensures forall i :: 0 <= i < n ==> 0 <= Shuffled(n, draws)[i] < n
  {
    ShuffleStepsPermutes(Range(n), draws, |draws|);
    var t := Shuffled(n, draws);
    forall i | 0 <= i < n ensures 0 <= t[i] < n {
      assert t[i] in multiset(t);
      assert t[i] in multiset(Range(n));
    }
  }

  // ---------------------------------------------------------------------------
  // The mapping step: one edge per word, and the edge-to-word associations

  /** edges = [(f1(word), f2(word)) for word in words]. */
  function WordEdges(words: seq<Word>, t1: seq<int>, t2: seq<int>, n: nat): (es: seq<Edge>)
    requires n > 0
    ensures |es| == |words|
  {
    seq(|words|, i requires 0 <= i < |words| => (MiniHash(t1, words[i], n), MiniHash(t2, words[i], n)))
  }

  /** The associations dict after the first k rounds of its loop: a later word overwrites an equal key. */
  function AssociationsOf(words: seq<Word>, es: seq<Edge>, k: nat): map<Edge, (nat, Word)>
    requires |es| == |words| && k <= |es|
  {
    if k == 0 then map[]
    else AssociationsOf(words, es, k - 1)[CanonicalOrder(es[k - 1]) := (k - 1, words[k - 1])]
  }

  /** The keys of the associations are the canonical edges of the first k words. */
  lemma {:induction false} AssociationsOfKeys(words: seq<Word>, es: seq<Edge>, k: nat)
    requires |es| == |words| && k <= |es|
    ensures forall e :: e in AssociationsOf(words, es, k) <==> exists i :: 0 <= i < k && e == CanonicalOrder(es[i])
  {
    if k > 0 {
      AssociationsOfKeys(words, es, k - 1);
      var prev := AssociationsOf(words, es, k - 1);
      var last := CanonicalOrder(es[k - 1]);
      assert AssociationsOf(words, es, k) == prev[last := (k - 1, words[k - 1])];
      forall e ensures e in AssociationsOf(words, es, k) <==> exists i :: 0 <= i < k && e == CanonicalOrder(es[i]) {
        if e in AssociationsOf(words, es, k) {
          if e != last {
            var i :| 0 <= i < k - 1 && e == CanonicalOrder(es[i]);
            assert 0 <= i < k && e == CanonicalOrder(es[i]);
          } else {
            assert 0 <= k - 1 < k && e == CanonicalOrder(es[k - 1]);
          }
        }
        if exists i :: 0 <= i < k && e == CanonicalOrder(es[i]) {
          var i :| 0 <= i < k && e == CanonicalOrder(es[i]);
          if i < k - 1 {
            assert e in prev;
          }
        }
      }
    }
  }

  /** When no two of the first k edges coincide, no key was overwritten: each maps to its own word and index. */
  lemma {:induction false} AssociationsOfValues(words: seq<Word>, es: seq<Edge>, k: nat)
    requires |es| == |words| && k <= |es|
    requires forall i, j :: 0 <= i < j < k ==> CanonicalOrder(es[i]) != CanonicalOrder(es[j])
    ensures forall i :: 0 <= i < k ==>
      CanonicalOrder(es[i]) in AssociationsOf(words, es, k) && AssociationsOf(words, es, k)[CanonicalOrder(es[i])] == (i, words[i])
  {
    if k > 0 {
      AssociationsOfValues(words, es, k - 1);
      var prev := AssociationsOf(words, es, k - 1);
      var last := CanonicalOrder(es[k - 1]);
      var a := prev[last := (k - 1, words[k - 1])];
      assert AssociationsOf(words, es, k) == a;
      forall i | 0 <= i < k ensures CanonicalOrder(es[i]) in a && a[CanonicalOrder(es[i])] == (i, words[i]) {
        if i < k - 1 {
          assert CanonicalOrder(es[i]) != last;
        }
      }
    }
  }

  /**
    For an accepted edge list the associations are exactly the graph's edges,
    and each maps to its own word and index: no key was ever overwritten.
  */
  lemma AssociationsLabelEdges(words: seq<Word>, es: seq<Edge>)
    requires |es| == |words| && Accepts(es)
    ensures forall e :: e in AssociationsOf(words, es, |es|) <==> e in EdgeSetOf(es)
    ensures forall i :: 0 <= i < |es| ==>
      CanonicalOrder(es[i]) in AssociationsOf(words, es, |es|) && AssociationsOf(words, es, |es|)[CanonicalOrder(es[i])] == (i, words[i])
  {
    AssociationsOfKeys(words, es, |es|);
    forall i, j | 0 <= i < j < |es| ensures CanonicalOrder(es[i]) != CanonicalOrder(es[j]) {
      AcceptedEdgesDistinct(es, i, j);
    }
    AssociationsOfValues(words, es, |es|);
    forall e ensures e in AssociationsOf(words, es, |es|) <==> e in EdgeSetOf(es) {
      if e in EdgeSetOf(es) {
        EdgeSetOfMembers(es, e);
      }
      if e in AssociationsOf(words, es, |es|) {
        var i :| 0 <= i < |es| && e == CanonicalOrder(es[i]);
        EdgeSetOfContains(es, i);
      }
    }
  }

  // ---------------------------------------------------------------------------
  // The assignment step, stated on the value of g (g[x] == None: not assigned yet)

  ghost predicate AssignedAt(s: seq<Option<int>>, x: Vertex)
  {
    0 <= x < |s| && s[x].Some?
  }

  /** Every edge whose two ends are assigned carries its word's index: g[u] + g[v] == num. */
  ghost predicate EdgesSatisfied(edges: set<Edge>, associations: map<Edge, (nat, Word)>, s: seq<Option<int>>)
  {
    forall x, y :: Adjacent(edges, x, y) && AssignedAt(s, x) && AssignedAt(s, y) ==>
      CanonicalOrder((x, y)) in associations && s[x].value + s[y].value == associations[CanonicalOrder((x, y))].0
  }

  /** An assigned vertex with an unassigned neighbour is still on the stack of open calls. */
  ghost predicate BoundaryOnStack(edges: set<Edge>, s: seq<Option<int>>, stack: seq<Vertex>)
  {
    forall x, w :: Adjacent(edges, x, w) && AssignedAt(s, x) && !AssignedAt(s, w) ==> x in stack
  }

  ghost predicate OnlyGraphAssigned(vertices: set<Vertex>, s: seq<Option<int>>)
  {
    forall x :: AssignedAt(s, x) ==> x in vertices
  }

  /** The invariant of the walk, with the stack of open calls. */
  ghost predicate Walking(edges: set<Edge>, associations: map<Edge, (nat, Word)>, vertices: set<Vertex>,
                          s: seq<Option<int>>, stack: seq<Vertex>)
  {
    EdgesSatisfied(edges, associations, s) && BoundaryOnStack(edges, s, stack) && OnlyGraphAssigned(vertices, s)
  }

  /** s grows from s0: what s0 assigned, s keeps. */
  ghost predicate Extends(s0: seq<Option<int>>, s: seq<Option<int>>)
  {
    |s| == |s0| && forall x :: AssignedAt(s0, x) ==> s[x] == s0[x]
  }

  ghost function Unassigned(s: seq<Option<int>>): set<Vertex>
  {
    set x | 0 <= x < |s| && s[x].None?
  }

  lemma ExtendsTrans(s0: seq<Option<int>>, s1: seq<Option<int>>, s2: seq<Option<int>>)
    requires Extends(s0, s1) && Extends(s1, s2)
    ensures Extends(s0, s2)
  {
  }

  /** Extending an assignment never unassigns a vertex, so the walk's measure never grows. */
  lemma ExtendsNoMoreUnassigned(s0: seq<Option<int>>, s: seq<Option<int>>)
    requires Extends(s0, s)
    ensures Unassigned(s) <= Unassigned(s0)
  {
    forall x | x in Unassigned(s) ensures x in Unassigned(s0) {
      if s0[x].Some? {
        assert AssignedAt(s0, x);
      }
    }
  }

  /** A stack assigned in s0 stays assigned in every extension of s0. */
  lemma ExtendsKeepsStack(s0: seq<Option<int>>, s: seq<Option<int>>, stack: seq<Vertex>)
    requires Extends(s0, s) && forall i :: 0 <= i < |stack| ==> AssignedAt(s0, stack[i])
    ensures forall i :: 0 <= i < |stack| ==> AssignedAt(s, stack[i])
  {
    forall i | 0 <= i < |stack| ensures AssignedAt(s, stack[i]) {
      assert AssignedAt(s0, stack[i]);
    }
  }

  /** Once w, unassigned in s0, is assigned, fewer vertices are left unassigned: the walk's measure. */
  lemma AssignShrinks(s0: seq<Option<int>>, s: seq<Option<int>>, w: Vertex)
    requires Extends(s0, s) && 0 <= w < |s| && s0[w].None? && s[w].Some?
    ensures Unassigned(s) < Unassigned(s0)
  {
    assert w in Unassigned(s0) && w !in Unassigned(s);
  }

  /**
    Assigning g[w] := num - g[v] for the unassigned neighbour w of the vertex v
    on top of the stack keeps every edge satisfied: in a forest, v is the only
    assigned neighbour w has. The boundary then lies on the stack extended by w.
  */
  lemma AssignNeighbourKeeps(edges: set<Edge>, associations: map<Edge, (nat, Word)>, vertices: set<Vertex>,
                             s: seq<Option<int>>, stack: seq<Vertex>, v: Vertex, w: Vertex)
    requires Acyclic(edges) && CanonicalEdges(edges) && forall e :: e in edges ==> e in associations
    requires IsPath(edges, stack) && stack[|stack| - 1] == v
    requires forall i :: 0 <= i < |stack| ==> AssignedAt(s, stack[i])
    requires Walking(edges, associations, vertices, s, stack) && w in vertices
    requires Adjacent(edges, v, w) && 0 <= w < |s| && s[w].None?
    ensures var s' := s[w := Some(associations[CanonicalOrder((v, w))].0 - s[v].value)];
      && Walking(edges, associations, vertices, s', stack + [w])
      && Extends(s, s')
      && IsPath(edges, stack + [w])
      && forall i :: 0 <= i < |stack| + 1 ==> AssignedAt(s', (stack + [w])[i])
  {
    var s' := s[w := Some(associations[CanonicalOrder((v, w))].0 - s[v].value)];
    assert w !in stack;
    PushKeepsPath(edges, stack, v, w);
    PushKeepsSatisfied(edges, associations, s, stack, v, w);
    PushKeepsBoundary(edges, s, s', stack, w);
  }

  /** Pushing a neighbour of the top of the stack keeps the stack a path, all of it assigned. */
  lemma PushKeepsPath(edges: set<Edge>, stack: seq<Vertex>, v: Vertex, w: Vertex)
    requires IsPath(edges, stack) && stack[|stack| - 1] == v && Adjacent(edges, v, w)
    ensures IsPath(edges, stack + [w])
  {
    var p := stack + [w];
    forall i, j | 0 <= i && j == i + 1 && j < |p| ensures Adjacent(edges, p[i], p[j]) {
      if j < |stack| {
        assert p[i] == stack[i] && p[j] == stack[j];
      }
    }
  }

  /** The value given to w satisfies its edge to v, and w has no other assigned neighbour. */
  lemma PushKeepsSatisfied(edges: set<Edge>, associations: map<Edge, (nat, Word)>,
                           s: seq<Option<int>>, stack: seq<Vertex>, v: Vertex, w: Vertex)
    requires Acyclic(edges) && CanonicalEdges(edges) && forall e :: e in edges ==> e in associations
    requires IsPath(edges, stack) && stack[|stack| - 1] == v && w !in stack
    requires AssignedAt(s, v) && EdgesSatisfied(edges, associations, s) && BoundaryOnStack(edges, s, stack)
    requires Adjacent(edges, v, w) && 0 <= w < |s| && s[w].None?
    ensures EdgesSatisfied(edges, associations, s[w := Some(associations[CanonicalOrder((v, w))].0 - s[v].value)])
  {
    var s' := s[w := Some(associations[CanonicalOrder((v, w))].0 - s[v].value)];
    forall x, y | Adjacent(edges, x, y) && AssignedAt(s', x) && AssignedAt(s', y)
      ensures CanonicalOrder((x, y)) in associations
      ensures s'[x].value + s'[y].value == associations[CanonicalOrder((x, y))].0
    {
      if x == w || y == w {
        var u := if x == w then y else x;
        CanonicalOrderSymmetricIdempotent(x, y);
        assert Adjacent(edges, u, w);
        assert u != w;
        assert AssignedAt(s, u);
        assert u in stack;
        StackNeighbourIsTop(edges, stack, v, w, u);
      }
    }
  }

  /** After w is assigned and pushed, every assigned vertex with an unassigned neighbour is still on the stack. */
  lemma PushKeepsBoundary(edges: set<Edge>, s: seq<Option<int>>, s': seq<Option<int>>, stack: seq<Vertex>, w: Vertex)
    requires BoundaryOnStack(edges, s, stack)
    requires 0 <= w < |s| == |s'| && s' == s[w := s'[w]] && s'[w].Some?
    ensures BoundaryOnStack(edges, s', stack + [w])
  {
    forall x, w' | Adjacent(edges, x, w') && AssignedAt(s', x) && !AssignedAt(s', w') ensures x in stack + [w] {
      if x != w {
        assert AssignedAt(s, x) && !AssignedAt(s, w');
      }
    }
  }

  /** Setting an unassigned root to 0 when no assigned vertex has an unassigned neighbour. */
  lemma RootKeeps(edges: set<Edge>, associations: map<Edge, (nat, Word)>, vertices: set<Vertex>,
                  s: seq<Option<int>>, r: Vertex)
    requires CanonicalEdges(edges)
    requires Walking(edges, associations, vertices, s, []) && r in vertices
    requires 0 <= r < |s| && s[r].None?
    ensures var s' := s[r := Some(0)];
      && Walking(edges, associations, vertices, s', [r])
      && Extends(s, s')
  {
    var s' := s[r := Some(0)];
    forall x, y | Adjacent(edges, x, y) && AssignedAt(s', x) && AssignedAt(s', y)
      ensures CanonicalOrder((x, y)) in associations && s'[x].value + s'[y].value == associations[CanonicalOrder((x, y))].0
    {
      if x == r || y == r {
        var u := if x == r then y else x;
        assert Adjacent(edges, u, r);
        assert false;
      }
    }
  }

  /** Every neighbour of v outside todo is assigned. */
  ghost predicate NeighboursDone(edges: set<Edge>, s: seq<Option<int>>, v: Vertex, todo: set<Vertex>)
  {
    forall u :: Adjacent(edges, v, u) && u !in todo ==> AssignedAt(s, u)
  }

  lemma NeighbourDone(edges: set<Edge>, s0: seq<Option<int>>, s: seq<Option<int>>, v: Vertex,
                      todo: set<Vertex>, w: Vertex)
    requires NeighboursDone(edges, s0, v, todo) && Extends(s0, s) && AssignedAt(s, w)
    ensures NeighboursDone(edges, s, v, todo - {w})
  {
    forall u | Adjacent(edges, v, u) && u !in todo - {w} ensures AssignedAt(s, u) {
      if u != w {
        assert u !in todo;
      }
    }
  }

  /** Every vertex outside todo is assigned. */
  ghost predicate RootsDone(vertices: set<Vertex>, s: seq<Option<int>>, todo: set<Vertex>)
  {
    forall x :: x in vertices && x !in todo ==> AssignedAt(s, x)
  }

  lemma RootDone(vertices: set<Vertex>, s0: seq<Option<int>>, s: seq<Option<int>>, todo: set<Vertex>, r: Vertex)
    requires RootsDone(vertices, s0, todo) && Extends(s0, s) && AssignedAt(s, r)
    ensures RootsDone(vertices, s, todo - {r})
  {
    forall x | x in vertices && x !in todo - {r} ensures AssignedAt(s, x) {
      if x != r {
        assert x !in todo;
      }
    }
  }

  /** Once every neighbour of v is assigned, v leaves the stack. */
  lemma PopStack(edges: set<Edge>, associations: map<Edge, (nat, Word)>, vertices: set<Vertex>,
                 s: seq<Option<int>>, stack: seq<Vertex>, v: Vertex)
    requires |stack| > 0 && stack[|stack| - 1] == v
    requires Walking(edges, associations, vertices, s, stack) && NeighboursDone(edges, s, v, {})
    ensures Walking(edges, associations, vertices, s, stack[..|stack| - 1])
  {
    var below := stack[..|stack| - 1];
    assert stack == below + [v];
    forall x, y | Adjacent(edges, x, y) && AssignedAt(s, x) && !AssignedAt(s, y) ensures x in below {
      assert x in stack && x != v;
    }
  }

  /**
    What assign() achieves: exactly the graph's vertices are assigned, and
    across every edge the two values add up to the index of the edge's word.
  */
  ghost predicate Solves(edges: set<Edge>, associations: map<Edge, (nat, Word)>, vertices: set<Vertex>,
                         s: seq<Option<int>>)
  {
    && (forall e :: e in edges ==>
      && AssignedAt(s, e.0) && AssignedAt(s, e.1) && e in associations
      && s[e.0].value + s[e.1].value == associations[e].0)
    && (forall x :: 0 <= x < |s| ==> (s[x].Some? <==> x in vertices))
  }

  /** When every vertex is assigned, every edge is satisfied and only vertices are. */
  lemma WalkDone(edges: set<Edge>, associations: map<Edge, (nat, Word)>, vertices: set<Vertex>,
                 s: seq<Option<int>>)
    requires CanonicalEdges(edges) && forall e :: e in edges ==> e.0 in vertices && e.1 in vertices
    requires Walking(edges, associations, vertices, s, []) && RootsDone(vertices, s, {})
    ensures Solves(edges, associations, vertices, s)
  {
    forall e | e in edges
      ensures AssignedAt(s, e.0) && AssignedAt(s, e.1) && e in associations && s[e.0].value + s[e.1].value == associations[e].0
    {
      assert Adjacent(edges, e.0, e.1);
    }
  }

  /** The loop of generate_or_fail that fills the associations dict, one word at a time. */
  method Associate(words: seq<Word>, es: seq<Edge>) returns (associations: map<Edge, (nat, Word)>)
    requires |es| == |words|
    ensures associations == AssociationsOf(words, es, |es|)
  {
    associations := map[];
    var num := 0;
    while num < |words|
      invariant 0 <= num <= |words|
      invariant associations == AssociationsOf(words, es, num)
    {
      associations := associations[CanonicalOrder(es[num]) := (num, words[num])];
      num := num + 1;
    }
  }

  /** The graph and the associations one trial builds. */
  datatype Mapping = Mapping(graph: ForestGraph, associations: map<Edge, (nat, Word)>)

  /**
    The part of generate_or_fail after the tables are drawn: the words'
    edges, their forest, and the associations dict.
  */
  method MapWords(words: seq<Word>, n: nat, table1: seq<int>, table2: seq<int>)
    returns (r: Result<Mapping, InvariantError>)
    requires n > 0 && |table1| == n && |table2| == n
    ensures r.Success? <==> Accepts(WordEdges(words, table1, table2, n))
    ensures r.Success? ==>
      && fresh(r.value.graph) && r.value.graph.Valid()
      && MappingState(table1, table2, r.value.graph.edges, r.value.graph.vertices, r.value.associations)
         == MappingOf(words, n, table1, table2)
  {
    var es := WordEdges(words, table1, table2, n);
    var graph := NewForestGraph(es);
    if graph.Failure? {
      return Failure(graph.error);
    }
    var associations := Associate(words, es);
    return Success(Mapping(graph.value, associations));
  }

  // ---------------------------------------------------------------------------
  // CzechHashBuilder

  /** The values random.shuffle drew for the two tables of one trial. */
  datatype TrialDraws = TrialDraws(first: seq<nat>, second: seq<nat>)

  /** The exceptions building a hash can end in. */
  datatype BuildError =
    | IndexError              // words[0] of an empty word list
    | RuntimeError(tries: nat) // "Could not generate graph in {tries} tries"

  predicate ValidTrial(n: nat, d: TrialDraws)
  {
    ValidDraws(n, d.first) && ValidDraws(n, d.second)
  }

  /** The edges one trial gives the words: the mini-hashes under its two shuffled tables. */
  function TrialEdges(words: seq<Word>, n: nat, d: TrialDraws): (es: seq<Edge>)
    requires n > 0 && ValidTrial(n, d)
    ensures |es| == |words|
  {
    WordEdges(words, Shuffled(n, d.first), Shuffled(n, d.second), n)
  }

  /**
    Draws for every trial the retry loop of m distinct words can make: m * m
    trials, each with tables of n = 3 * m entries.
  */
  predicate EnoughTrials(m: nat, trials: seq<TrialDraws>)
  {
    |trials| >= m * m && forall k :: 0 <= k < |trials| ==> ValidTrial(3 * m, trials[k])
  }

  /** Trial k is one of the given trials and gives the words a forest. */
  ghost predicate TrialAccepted(words: seq<Word>, trials: seq<TrialDraws>, k: nat)
  {
    && |words| > 0 && k < |trials| && ValidTrial(3 * |words|, trials[k])
    && Accepts(TrialEdges(words, 3 * |words|, trials[k]))
  }

  /** None of the first k trials gives a forest. */
  ghost predicate NoneAccepted(words: seq<Word>, trials: seq<TrialDraws>, k: nat)
  {
    forall j :: 0 <= j < k ==> !TrialAccepted(words, trials, j)
  }

  /** Trial k is the first that gives a forest. */
  ghost predicate FirstAccepted(words: seq<Word>, trials: seq<TrialDraws>, k: nat)
  {
    NoneAccepted(words, trials, k) && TrialAccepted(words, trials, k)
  }

  /** Some trial among the first m * m gives a forest. */
  ghost predicate SomeTrialAccepted(words: seq<Word>, trials: seq<TrialDraws>)
  {
    exists k :: 0 <= k < |words| * |words| && TrialAccepted(words, trials, k)
  }

  /** What the retry loop finds from trial k on: the first of trials k .. m*m - 1 that gives a forest. */
  ghost function FirstTrialFrom(words: seq<Word>, trials: seq<TrialDraws>, k: nat): (r: Option<nat>)
    ensures r.Some? ==> k <= r.value < |words| * |words|
    decreases |words| * |words| - k
  {
    if k >= |words| * |words| then None
    else if TrialAccepted(words, trials, k) then Some(k)
    else FirstTrialFrom(words, trials, k + 1)
  }

  /** The trial FirstTrialFrom(k) finds gives a forest, and none from k up to it does. */
  lemma {:induction false} FirstTrialFromFound(words: seq<Word>, trials: seq<TrialDraws>, k: nat)
    requires FirstTrialFrom(words, trials, k).Some?
    ensures TrialAccepted(words, trials, FirstTrialFrom(words, trials, k).value)
    ensures forall j :: k <= j < FirstTrialFrom(words, trials, k).value ==>
      !TrialAccepted(words, trials, j)
    decreases |words| * |words| - k
  {
    if !TrialAccepted(words, trials, k) {
      FirstTrialFromFound(words, trials, k + 1);
      var r := FirstTrialFrom(words, trials, k + 1);
      forall j | k <= j < r.value ensures !TrialAccepted(words, trials, j) {
        if j > k {
          assert !TrialAccepted(words, trials, j);
        }
      }
    }
  }

  /** When FirstTrialFrom(k) finds nothing, none of the trials from k on gives a forest. */
  lemma {:induction false} FirstTrialFromNone(words: seq<Word>, trials: seq<TrialDraws>, k: nat)
    requires FirstTrialFrom(words, trials, k).None?
    ensures forall j :: k <= j < |words| * |words| ==> !TrialAccepted(words, trials, j)
    decreases |words| * |words| - k
  {
    if k < |words| * |words| {
      assert !TrialAccepted(words, trials, k);
      assert FirstTrialFrom(words, trials, k + 1).None?;
      FirstTrialFromNone(words, trials, k + 1);
      forall j | k <= j < |words| * |words| ensures !TrialAccepted(words, trials, j) {
        if j > k {
          assert !TrialAccepted(words, trials, j);
        }
      }
    }
  }

  /**
    The retry loop's answer: it finds a trial exactly when some trial among
    the first m * m gives a forest, and the trial it finds is exactly the
    first that does.
  */
  lemma FirstTrialIsFirstAccepted(words: seq<Word>, trials: seq<TrialDraws>)
    ensures FirstTrialFrom(words, trials, 0).Some? <==> SomeTrialAccepted(words, trials)
    ensures forall k :: 0 <= k < |words| * |words| ==>
      (FirstAccepted(words, trials, k) <==> FirstTrialFrom(words, trials, 0) == Some(k))
  {
    var r := FirstTrialFrom(words, trials, 0);
    if r.Some? {
      FirstTrialFromFound(words, trials, 0);
      assert TrialAccepted(words, trials, r.value);
      forall k | 0 <= k < |words| * |words| && FirstAccepted(words, trials, k) ensures r == Some(k) {
        if k < r.value {
          assert false;
        } else if r.value < k {
          assert false;
        }
      }
    } else {
      FirstTrialFromNone(words, trials, 0);
      assert !SomeTrialAccepted(words, trials);
    }
  }

  /** What a mapping step stores: the two tables, the forest's edges and vertices, and the associations. */
  datatype MappingState = MappingState(t1: seq<int>, t2: seq<int>, edges: set<Edge>, vertices: set<Vertex>,
                                       associations: map<Edge, (nat, Word)>)

  /**
    What generate_or_fail stores for tables t1 and t2: the edge set and the
    vertices of the words' edges under them, and the associations of those
    edges.
  */
  ghost function MappingOf(words: seq<Word>, n: nat, t1: seq<int>, t2: seq<int>): MappingState
    requires n > 0
  {
    var es := WordEdges(words, t1, t2, n);
    MappingState(t1, t2, EdgeSetOf(es), EndpointsOf(es), AssociationsOf(words, es, |es|))
  }

  /**
    What the assignment walk needs of an accepted mapping: its edges are
    canonical and form a forest, each joins two of its vertices and carries a
    word, and every vertex is a mini-hash value in [0, n).
  */
  lemma MappingReady(words: seq<Word>, n: nat, t1: seq<int>, t2: seq<int>)
    requires n > 0 && Accepts(WordEdges(words, t1, t2, n))
    ensures var st := MappingOf(words, n, t1, t2);
      && CanonicalEdges(st.edges) && Acyclic(st.edges)
      && (forall e :: e in st.edges ==> e.0 in st.vertices && e.1 in st.vertices && e in st.associations)
      && (forall x :: x in st.vertices ==> 0 <= x < n)
  {
    var es := WordEdges(words, t1, t2, n);
    AcceptedIsForest(es);
    AssociationsLabelEdges(words, es);
    forall e | e in EdgeSetOf(es) ensures e.0 in EndpointsOf(es) && e.1 in EndpointsOf(es) {
      EdgeSetOfMembers(es, e);
      var i :| 0 <= i < |es| && e == CanonicalOrder(es[i]);
      EdgeSetOfContains(es, i);
    }
    forall x | x in EndpointsOf(es) ensures 0 <= x < n {
      EndpointsOfMembers(es, x);
    }
  }

  // ---------------------------------------------------------------------------
  // The hash function: hash_function's closure and PickableHash

  /**
    What the hash function keeps of a builder: n, g and the two tables. The
    closure hash_function returns and a PickableHash hold the same four
    values and compute the same czech_hash.
  */
  datatype PickableHash = PickableHash(n: nat, g: seq<Option<int>>, t1: seq<int>, t2: seq<int>)

  /**
    czech_hash(word) = g[f1(word)] + g[f2(word)]. A slot g never assigned
    holds None, and None + int raises TypeError: modelled as None.
  */
  function CzechHash(h: PickableHash, word: Word): Option<int>
    requires h.n > 0 && |h.g| == h.n + 1
  {
    var v1, v2 := MiniHash(h.t1, word, h.n), MiniHash(h.t2, word, h.n);
    if h.g[v1].Some? && h.g[v2].Some? then Some(h.g[v1].value + h.g[v2].value) else None
  }

  /** An ordered minimal perfect hash of words: the i-th word hashes to i. */
  ghost predicate HashesInOrder(h: PickableHash, words: seq<Word>)
  {
    && h.n > 0 && |h.g| == h.n + 1
    && forall i :: 0 <= i < |words| ==> CzechHash(h, words[i]) == Some(i)
  }

  /** The HashInfo named tuple: t1, t2, g and indices. */
  datatype HashInfo = HashInfo(t1: seq<int>, t2: seq<int>, g: seq<Option<int>>, indices: seq<int>)

  /** One word's edge under a solving g: the g values at its two mini-hashes add up to its index. */
  lemma SolvedEdgeSum(words: seq<Word>, n: nat, t1: seq<int>, t2: seq<int>, s: seq<Option<int>>, i: nat)
    requires n > 0 && i < |words|
    requires Accepts(WordEdges(words, t1, t2, n))
    requires var st := MappingOf(words, n, t1, t2); Solves(st.edges, st.associations, st.vertices, s)
    ensures var u, v := MiniHash(t1, words[i], n), MiniHash(t2, words[i], n);
      AssignedAt(s, u) && AssignedAt(s, v) && s[u].value + s[v].value == i
  {
    var es := WordEdges(words, t1, t2, n);
    var e := CanonicalOrder(es[i]);
    EdgeSetOfContains(es, i);
    AssociationsLabelEdges(words, es);
    assert AssociationsOf(words, es, |es|)[e] == (i, words[i]);
    assert es[i] == (MiniHash(t1, words[i], n), MiniHash(t2, words[i], n));
  }

  /** czech_hash of a word whose two g values are assigned is their sum. */
  lemma CzechHashOfAssigned(h: PickableHash, word: Word, i: int)
    requires h.n > 0 && |h.g| == h.n + 1
    requires var u, v := MiniHash(h.t1, word, h.n), MiniHash(h.t2, word, h.n);
      AssignedAt(h.g, u) && AssignedAt(h.g, v) && h.g[u].value + h.g[v].value == i
    ensures CzechHash(h, word) == Some(i)
  {
  }

  /**
    The headline property: once g solves an accepted mapping, the two g values
    at a word's mini-hashes are assigned and add up to the word's index.
  */
  lemma SolvedHashesWords(words: seq<Word>, n: nat, t1: seq<int>, t2: seq<int>, s: seq<Option<int>>)
    requires n > 0 && |s| == n + 1 && Accepts(WordEdges(words, t1, t2, n))
    requires var st := MappingOf(words, n, t1, t2); Solves(st.edges, st.associations, st.vertices, s)
    ensures HashesInOrder(PickableHash(n, s, t1, t2), words)
  {
    forall i | 0 <= i < |words| ensures CzechHash(PickableHash(n, s, t1, t2), words[i]) == Some(i) {
      SolvedEdgeSum(words, n, t1, t2, s, i);
      CzechHashOfAssigned(PickableHash(n, s, t1, t2), words[i], i);
    }
  }

  class CzechHashBuilder {
    /** The keys, duplicates removed; a word's position is its hash value. */
    var words: seq<Word>
    var indices: seq<int>
    var n: nat
    var t1: seq<int>
    var t2: seq<int>
    var graph: ForestGraph
    /** Each canonical edge of the graph to the (index, word) it came from. */
    var associations: map<Edge, (nat, Word)>
    /** The vertex values, 1-indexed as the source has it: n + 1 slots. */
    var g: array<Option<int>>
    var trialsTaken: nat

    /**
      The first two lines of __init__: the deduplicated words and
      indices = range(len(words[0])); words == [] raises IndexError there,
      which the caller checks. The mapping and assignment steps follow as
      GenerateAcyclicGraph and Assign.
    */
    constructor (input: seq<Word>)
      requires |input| > 0
      ensures words == OrderedDeduplicate(input) && indices == Range(|input[0]|)
      ensures fresh(graph) && graph.Valid() && graph.vertices == {} && graph.edges == {}
      ensures n == 0 && t1 == [] && t2 == [] && associations == map[] && trialsTaken == 0
    {
      words := OrderedDeduplicate(input);
      indices := Range(|input[0]|);
      graph := new ForestGraph();
      n, t1, t2, associations, trialsTaken := 0, [], [], map[], 0;
      g := new Option<int>[0];
    }

    /** The tables, graph and associations the mapping step stored, as a value. */
    ghost function Current(): MappingState
      reads this`t1, this`t2, this`graph, this`associations, graph
    {
      MappingState(t1, t2, graph.edges, graph.vertices, associations)
    }

    /**
      The mapping step stored trial d: the tables, edges, vertices and
      associations are those of the words under d's two shuffled tables.
    */
    ghost predicate StoredTrial(d: TrialDraws)
      requires n > 0 && ValidTrial(n, d)
      reads this`words, this`n, this`t1, this`t2, this`graph, this`associations, graph
    {
      Current() == MappingOf(words, n, Shuffled(n, d.first), Shuffled(n, d.second))
    }

    /** generate_random_table: list(range(n)) shuffled in place. */
    method GenerateRandomTable(draws: seq<nat>) returns (table: seq<int>)
      requires ValidDraws(n, draws)
      ensures table == Shuffled(n, draws)
      ensures |table| == n
    {
      var a := new int[n](i => i);
      assert a[..] == Range(n);
      var k := 0;
      while k < |draws|
        invariant 0 <= k <= |draws|
        invariant a[..] == ShuffleSteps(Range(n), draws, k)
      {
        var i, j := n - 1 - k, draws[k];
        a[i], a[j] := a[j], a[i];
        k := k + 1;
      }
      table := a[..];
      ShuffledIsPermutationOfRange(n, draws);
    }

    /**
      generate_or_fail: two fresh tables, one edge per word, and the forest of
      those edges; only when the forest accepts every edge are the tables, the
      graph and the associations stored.
    */
    method GenerateOrFail(d: TrialDraws) returns (err: Option<InvariantError>)
      requires n > 0 && ValidTrial(n, d)
      modifies this`t1, this`t2, this`graph, this`associations
      ensures words == old(words) && indices == old(indices) && n == old(n)
      ensures g == old(g) && trialsTaken == old(trialsTaken)
      ensures err.None? <==> Accepts(TrialEdges(words, n, d))
      ensures err.None? ==> fresh(graph) && StoredTrial(d)
      ensures err.Some? ==>
        t1 == old(t1) && t2 == old(t2) && graph == old(graph) && associations == old(associations)
    {
      var table1 := GenerateRandomTable(d.first);
      var table2 := GenerateRandomTable(d.second);
      var r := MapWords(words, n, table1, table2);
      if r.Failure? {
        return Some(r.error);
      }
      KeepMapping(table1, table2, r.value);
      return None;
    }

    /** The stores generate_or_fail makes once a trial's forest is accepted. */
    method KeepMapping(table1: seq<int>, table2: seq<int>, m: Mapping)
      modifies this`t1, this`t2, this`graph, this`associations
      ensures Current() == MappingState(table1, table2, m.graph.edges, m.graph.vertices, m.associations)
      ensures graph == m.graph
    {
      t1, t2, graph, associations := table1, table2, m.graph, m.associations;
    }

    /**
      generate_acyclic_graph: n = 3 * m for the m words, then up to m * m
      trials; the first that gives a forest is kept and trials_taken counts
      the trials made.
    */
    method GenerateAcyclicGraph(trials: seq<TrialDraws>) returns (err: Option<BuildError>)
      requires |words| > 0 && EnoughTrials(|words|, trials)
      modifies this
      ensures words == old(words) && indices == old(indices) && g == old(g)
      ensures n == 3 * |words|
      ensures err.None? <==> FirstTrialFrom(words, trials, 0).Some?
      ensures err.None? ==>
        && trialsTaken == FirstTrialFrom(words, trials, 0).value + 1
        && fresh(graph) && StoredTrial(trials[trialsTaken - 1])
      ensures err.Some? ==> err.value == RuntimeError(|words| * |words|)
    {
      ghost var ws := words;
      ghost var first := FirstTrialFrom(ws, trials, 0);
      n := 3 * |words|;
      var maxTries := |words| * |words|;
      var trial := 0;
      while trial < maxTries
        invariant 0 <= trial <= maxTries
        invariant words == ws && indices == old(indices) && g == old(g) && n == 3 * |ws|
        invariant FirstTrialFrom(ws, trials, trial) == first
      {
        var failed := GenerateOrFail(trials[trial]);
        if failed.None? {
          trialsTaken := trial + 1;
          return None;
        }
        trial := trial + 1;
      }
      return Some(RuntimeError(maxTries));
    }

    /** What the assignment walk relies on: a forest whose every edge has a word and every vertex a slot of g. */
    ghost predicate AssignReady()
      reads this`n, this`graph, this`associations, graph
    {
      && graph.EdgesWithinVertices() && CanonicalEdges(graph.edges) && Acyclic(graph.edges)
      && (forall e :: e in graph.edges ==> e in associations)
      && (forall x :: x in graph.vertices ==> 0 <= x < n)
    }

    /**
      assign_vertex(vertex): every unassigned neighbour of vertex is assigned
      and walked from in turn. The ghost stack is the path of open calls, vertex
      on top.
    */
    method AssignVertex(v: Vertex, ghost stack: seq<Vertex>)
      requires AssignReady() && g.Length == n + 1
      requires IsPath(graph.edges, stack) && stack[|stack| - 1] == v
      requires forall i :: 0 <= i < |stack| ==> AssignedAt(g[..], stack[i])
      requires Walking(graph.edges, associations, graph.vertices, g[..], stack)
      modifies g
      ensures Extends(old(g[..]), g[..])
      ensures Walking(graph.edges, associations, graph.vertices, g[..], stack[..|stack| - 1])
      decreases Unassigned(g[..]), 1
    {
      ghost var edges := graph.edges;
      ghost var vertices := graph.vertices;
      var todo := graph.Neighbours(v);
      while todo != {}
        invariant forall w :: w in todo ==> Adjacent(edges, v, w)
        invariant Extends(old(g[..]), g[..])
        invariant Walking(edges, associations, vertices, g[..], stack)
        invariant NeighboursDone(edges, g[..], v, todo)
        decreases todo
      {
        NonEmptyHasMember(todo);
        var w :| w in todo;
        ghost var s := g[..];
        ExtendsKeepsStack(old(g[..]), s, stack);
        ExtendsNoMoreUnassigned(old(g[..]), s);
        VisitNeighbour(v, w, stack);
        ExtendsTrans(old(g[..]), s, g[..]);
        NeighbourDone(edges, s, g[..], v, todo, w);
        todo := todo - {w};
      }
      PopStack(edges, associations, vertices, g[..], stack, v);
    }

    /**
      One round of assign_vertex's loop: an unassigned neighbour w of v gets
      g[w] = num - g[v], so that g[v] + g[w] is the index num of the word on
      their edge, and the walk goes on from w; an assigned one is skipped.
    */
    method VisitNeighbour(v: Vertex, w: Vertex, ghost stack: seq<Vertex>)
      requires AssignReady() && g.Length == n + 1
      requires IsPath(graph.edges, stack) && stack[|stack| - 1] == v
      requires forall i :: 0 <= i < |stack| ==> AssignedAt(g[..], stack[i])
      requires Adjacent(graph.edges, v, w)
      requires Walking(graph.edges, associations, graph.vertices, g[..], stack)
      modifies g
      ensures Extends(old(g[..]), g[..]) && AssignedAt(g[..], w)
      ensures Walking(graph.edges, associations, graph.vertices, g[..], stack)
      decreases Unassigned(g[..]), 0
    {
      assert w in graph.vertices;
      if g[w].None? {
        var (num, _) := associations[CanonicalOrder((v, w))];
        ghost var s := g[..];
        AssignNeighbourKeeps(graph.edges, associations, graph.vertices, s, stack, v, w);
        SetSlot(w, Some(num - g[v].value));
        AssignShrinks(s, g[..], w);
        assert (stack + [w])[..|stack|] == stack;
        ghost var s' := g[..];
        AssignVertex(w, stack + [w]);
        ExtendsTrans(s, s', g[..]);
      }
    }

    /**
      One round of assign's loop: a vertex no walk has reached yet becomes the
      root of its tree, with value 0, and the walk goes from it; a reached one
      is skipped.
    */
    method PlantRoot(r: Vertex)
      requires AssignReady() && g.Length == n + 1 && r in graph.vertices
      requires Walking(graph.edges, associations, graph.vertices, g[..], [])
      modifies g
      ensures Extends(old(g[..]), g[..]) && AssignedAt(g[..], r)
      ensures Walking(graph.edges, associations, graph.vertices, g[..], [])
    {
      if g[r].None? {
        RootKeeps(graph.edges, associations, graph.vertices, g[..], r);
        SetSlot(r, Some(0));
        assert IsPath(graph.edges, [r]);
        ghost var s := g[..];
        AssignVertex(r, [r]);
        ExtendsTrans(old(g[..]), s, g[..]);
        assert [r][..0] == [];
      }
    }

    /** g[x] = value, as one step whose effect on the whole of g is stated. */
    method SetSlot(x: Vertex, value: Option<int>)
      requires 0 <= x < g.Length
      modifies g
      ensures g[..] == old(g[..])[x := value]
    {
      g[x] := value;
    }

    /**
      assign(): g starts as n + 1 empty slots; every vertex not reached yet
      becomes the root of its tree with value 0 and the walk goes from it.
    */
    method Assign()
      requires AssignReady()
      modifies this
      ensures fresh(g) && g.Length == n + 1
      ensures words == old(words) && indices == old(indices) && n == old(n) && t1 == old(t1) && t2 == old(t2)
      ensures graph == old(graph) && associations == old(associations) && trialsTaken == old(trialsTaken)
      ensures Solves(graph.edges, associations, graph.vertices, g[..])
    {
      g := new Option<int>[n + 1](_ => None);
      AssignAll();
    }

    /** assign()'s loop over the vertices, on a table g with nothing assigned yet. */
    method AssignAll()
      requires AssignReady() && g.Length == n + 1
      requires forall x :: 0 <= x < g.Length ==> g[x].None?
      modifies g
      ensures Solves(graph.edges, associations, graph.vertices, g[..])
    {
      ghost var edges := graph.edges;
      ghost var vertices := graph.vertices;
      var todo := graph.vertices;
      while todo != {}
        invariant Walking(edges, associations, vertices, g[..], [])
        invariant RootsDone(vertices, g[..], todo)
        decreases todo
      {
        NonEmptyHasMember(todo);
        var vertex :| vertex in todo;
        ghost var s := g[..];
        PlantRoot(vertex);
        RootDone(vertices, s, g[..], todo, vertex);
        todo := todo - {vertex};
      }
      WalkDone(edges, associations, vertices, g[..]);
    }

    /**
      The assignment step after a mapping step that stored an accepted trial
      d: g solves the mapping, so the hash function sends every word to its
      index.
    */
    method AssignStored(ghost d: TrialDraws)
      requires n > 0 && ValidTrial(n, d) && StoredTrial(d)
      requires Accepts(TrialEdges(words, n, d))
      modifies this
      ensures fresh(g) && g.Length == n + 1
      ensures words == old(words) && indices == old(indices) && n == old(n) && trialsTaken == old(trialsTaken)
      ensures |t1| == n && |t2| == n
      ensures HashesInOrder(HashFunction(), words)
    {
      ghost var u1, u2 := Shuffled(n, d.first), Shuffled(n, d.second);
      ShuffledIsPermutationOfRange(n, d.first);
      ShuffledIsPermutationOfRange(n, d.second);
      MappingReady(words, n, u1, u2);
      Assign();
      SolvedHashesWords(words, n, u1, u2, g[..]);
    }

    /** hash_function: the closure over f1, f2 and g, as the values it captures. */
    function HashFunction(): PickableHash
      reads this, g
    {
      PickableHash(n, g[..], t1, t2)
    }

    /** hash_info: the HashInfo tuple of t1, t2, g and indices. */
    function HashInfoOf(): HashInfo
      reads this, g
    {
      HashInfo(t1, t2, g[..], indices)
    }
  }

  /**
    CzechHashBuilder(words): deduplicate, then the mapping step (retrying up to
    m * m trials) and the assignment step. An empty word list raises
    IndexError at words[0]; m * m rejected trials raise RuntimeError.
  */
  method NewCzechHashBuilder(input: seq<Word>, trials: seq<TrialDraws>) returns (r: Result<CzechHashBuilder, BuildError>)
    requires EnoughTrials(|OrderedDeduplicate(input)|, trials)
    ensures input == [] ==> r == Failure(IndexError)
    ensures input != [] ==> (r.Success? <==> SomeTrialAccepted(OrderedDeduplicate(input), trials))
    ensures input != [] && r.Failure? ==>
      r.error == RuntimeError(|OrderedDeduplicate(input)| * |OrderedDeduplicate(input)|)
    ensures r.Success? ==>
      && fresh(r.value) && fresh(r.value.g)
      && r.value.words == OrderedDeduplicate(input) && r.value.indices == Range(|input[0]|)
      && r.value.n == 3 * |r.value.words| && r.value.g.Length == r.value.n + 1
      && |r.value.t1| == r.value.n && |r.value.t2| == r.value.n
      && 1 <= r.value.trialsTaken <= |r.value.words| * |r.value.words|
      && FirstAccepted(r.value.words, trials, r.value.trialsTaken - 1)
      && HashesInOrder(r.value.HashFunction(), r.value.words)
  {
    if input == [] {
      return Failure(IndexError);
    }
    var b := new CzechHashBuilder(input);
    assert input[0] in b.words;
    var err := b.GenerateAcyclicGraph(trials);
    FirstTrialIsFirstAccepted(b.words, trials);
    if err.Some? {
      return Failure(err.value);
    }
    FirstTrialFromFound(b.words, trials, 0);
    b.AssignStored(trials[b.trialsTaken - 1]);
    return Success(b);
  }

  /** make_hash (and make_pickable_hash, whose PickableHash copies the same n, g, t1 and t2). */
  method MakeHash(input: seq<Word>, trials: seq<TrialDraws>) returns (r: Result<PickableHash, BuildError>)
    requires EnoughTrials(|OrderedDeduplicate(input)|, trials)
    ensures input == [] ==> r == Failure(IndexError)
    ensures input != [] ==> (r.Success? <==> SomeTrialAccepted(OrderedDeduplicate(input), trials))
    ensures input != [] && r.Failure? ==>
      r.error == RuntimeError(|OrderedDeduplicate(input)| * |OrderedDeduplicate(input)|)
    ensures r.Success? ==> r.value.n == 3 * |OrderedDeduplicate(input)| && HashesInOrder(r.value, OrderedDeduplicate(input))
  {
    var b := NewCzechHashBuilder(input, trials);
    if b.Failure? {
      return Failure(b.error);
    }
    return Success(b.value.HashFunction());
  }

  /** hash_parameters: the HashInfo of the builder; t1 and t2 have n = 3 * m entries and g has n + 1. */
  method HashParameters(input: seq<Word>, trials: seq<TrialDraws>) returns (r: Result<HashInfo, BuildError>)
    requires EnoughTrials(|OrderedDeduplicate(input)|, trials)
    ensures input == [] ==> r == Failure(IndexError)
    ensures input != [] ==> (r.Success? <==> SomeTrialAccepted(OrderedDeduplicate(input), trials))
    ensures input != [] && r.Failure? ==>
      r.error == RuntimeError(|OrderedDeduplicate(input)| * |OrderedDeduplicate(input)|)
    ensures r.Success? ==>
      && input != []
      && |r.value.t1| == 3 * |OrderedDeduplicate(input)| && |r.value.t2| == 3 * |OrderedDeduplicate(input)|
      && |r.value.g| == 3 * |OrderedDeduplicate(input)| + 1
      && r.value.indices == Range(|input[0]|)
      && HashesInOrder(PickableHash(3 * |OrderedDeduplicate(input)|, r.value.g, r.value.t1, r.value.t2),
                       OrderedDeduplicate(input))
  {
    var b := NewCzechHashBuilder(input, trials);
    if b.Failure? {
      return Failure(b.error);
    }
    return Success(b.value.HashInfoOf());
  }

  // ---------------------------------------------------------------------------
  // The documented examples

  function Days(): seq<Word>
  {
    ["sun", "mon", "tue", "wed", "thu", "fri", "sat"]
  }

  /** The seven day names are distinct, so deduplication keeps all seven in order. */
  lemma DaysDeduplicated()
    ensures OrderedDeduplicate(Days()) == Days()
  {
    assert Distinct(Days());
    OrderedDeduplicateOfDistinct(Days());
  }

  /**
    hash_parameters on the seven days, whatever the shuffles draw: t1 and t2
    have 21 entries and g has 22; the only other outcome is RuntimeError after
    7 * 7 rejected trials.
  */
  method HashParametersDaysExample(trials: seq<TrialDraws>) returns (info: Result<HashInfo, BuildError>)
    requires EnoughTrials(7, trials)
    ensures info.Success? ==> |info.value.t1| == 21 && |info.value.t2| == 21 && |info.value.g| == 22
    ensures info.Failure? ==> info.error == RuntimeError(49)
  {
    DaysDeduplicated();
    info := HashParameters(Days(), trials);
  }

  /** make_hash on the seven days: 'fri' hashes to 5 and 'sun' to 0. */
  lemma MakeHashDaysExample(h: PickableHash)
    requires HashesInOrder(h, OrderedDeduplicate(Days()))
    ensures CzechHash(h, "fri") == Some(5) && CzechHash(h, "sun") == Some(0)
  {
    DaysDeduplicated();
    assert Days()[5] == "fri" && Days()[0] == "sun";
  }

  /** The letters of 'guacala', each a one-letter word. */
  function Guacala(): seq<Word>
  {
    ["g", "u", "a", "c", "a", "l", "a"]
  }

  /** The last four letters of 'guacala' once g, u and a have been seen. */
  lemma GuacalaTail(seen: set<Word>)
    requires "g" in seen && "u" in seen && "a" in seen && "c" !in seen && "l" !in seen
    ensures DedupFrom(["c", "a", "l", "a"], seen) == ["c", "l"]
  {
    var seen' := seen + {"c"};
    DedupFromStep("a", [], seen' + {"l"});
    DedupFromStep("l", ["a"], seen');
    assert DedupFrom(["l", "a"], seen') == ["l"];
    DedupFromStep("a", ["l", "a"], seen');
    DedupFromStep("c", ["a", "l", "a"], seen);
  }

  /** Deduplicating 'guacala' keeps g, u, a, c, l. */
  lemma GuacalaDeduplicated()
    ensures OrderedDeduplicate(Guacala()) == ["g", "u", "a", "c", "l"]
  {
    var s1 := {} + {"g"};
    var s2 := s1 + {"u"};
    var s3 := s2 + {"a"};
    GuacalaTail(s3);
    DedupFromStep("a", ["c", "a", "l", "a"], s2);
    assert DedupFrom(["a", "c", "a", "l", "a"], s2) == ["a", "c", "l"];
    DedupFromStep("u", ["a", "c", "a", "l", "a"], s1);
    assert DedupFrom(["u", "a", "c", "a", "l", "a"], s1) == ["u", "a", "c", "l"];
    DedupFromStep("g", ["u", "a", "c", "a", "l", "a"], {});
    assert ["g"] + ["u", "a", "c", "a", "l", "a"] == Guacala();
  }

  /** The class doctest: the hash of 'guacala' sends l, a, c, u, g to 4, 2, 3, 1, 0. */
  lemma GuacalaExample(h: PickableHash)
    requires HashesInOrder(h, OrderedDeduplicate(Guacala()))
    ensures CzechHash(h, "l") == Some(4) && CzechHash(h, "a") == Some(2) && CzechHash(h, "c") == Some(3)
    ensures CzechHash(h, "u") == Some(1) && CzechHash(h, "g") == Some(0)
  {
    GuacalaDeduplicated();
    var w := OrderedDeduplicate(Guacala());
    assert w[4] == "l" && w[2] == "a" && w[3] == "c" && w[1] == "u" && w[0] == "g";
  }
}
